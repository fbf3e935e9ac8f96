/** The NUL-separated list of path names that GetVolumePathNamesForVolumeName
    fills in, and the loop of `GetLocalVolumeMountPoints` that splits it. */
module MultiString {
  import opened Wrappers
  import opened Win32

  const Nul: char := '\0'

  /** The first position at or after `from` that holds NUL, or |s| when there is none. */
  function IndexOfNul(s: string, from: nat): (k: nat)
    requires from <= |s|
    ensures from <= k <= |s|
    ensures k < |s| ==> s[k] == Nul
    ensures forall m :: from <= m < k ==> s[m] != Nul
    decreases |s| - from
  {
    if from == |s| || s[from] == Nul then from else IndexOfNul(s, from + 1)
  }

  /** Puts `prefix` in front of the entries of a successful result. */
  function Prepend(prefix: seq<string>, r: Result<seq<string>, Error>): Result<seq<string>, Error>
  {
    match r
    case Ok(xs) => Ok(prefix + xs)
    case Err(e) => Err(e)
  }

  /** The entries the parse loop collects from `s`: the NUL-terminated pieces
      up to the first empty one or the first double NUL. Text after the last
      NUL is ignored. A lone NUL at the very end after an entry makes the loop
      read one position past the string. */
  function Entries(s: string): Result<seq<string>, Error>
    decreases |s|
  {
    var k := IndexOfNul(s, 0);
    if k == |s| || k == 0 then Ok([])
    else if k + 1 == |s| then Err(IndexOutOfRange)
    else if s[k + 1] == Nul then Ok([s[..k]])
    else Prepend([s[..k]], Entries(s[k + 1..]))
  }

  /** Prepending twice is prepending the concatenation. */
  lemma PrependTwice(a: seq<string>, b: seq<string>, r: Result<seq<string>, Error>)
    ensures Prepend(a, Prepend(b, r)) == Prepend(a + b, r)
  {
    if r.Ok? {
      assert a + (b + r.value) == (a + b) + r.value;
    }
  }

  /** Prepending nothing changes nothing. */
  lemma PrependNothing(r: Result<seq<string>, Error>)
    ensures Prepend([], r) == r
  {
    if r.Ok? {
      assert [] + r.value == r.value;
    }
  }

  /** The loop of GetLocalVolumeMountPoints over the returned buffer. */
  method ParseEntries(s: string) returns (r: Result<seq<string>, Error>)
    ensures r == Entries(s)
  {
    var result: seq<string> := [];
    var lastIndex := 0;
    var i := 0;
    assert s[lastIndex..] == s;
    PrependNothing(Entries(s));
    while i != |s|
      invariant 0 <= lastIndex <= i <= |s|
      invariant forall m :: lastIndex <= m < i ==> s[m] != Nul
      invariant Entries(s) == Prepend(result, Entries(s[lastIndex..]))
      decreases |s| - i
    {
      if s[i] == Nul {
        ghost var start, t := lastIndex, s[lastIndex..];
        FirstNulAt(t, i - start);
        if i - lastIndex == 0 {
          assert Entries(t) == Ok([]);
          assert result + [] == result;
          break;
        }
        assert t[..i - start] == s[start..i];
        PrependTwice(result, [s[lastIndex..i]], Entries(s[i + 1..]));
        result := result + [s[lastIndex..i]];
        lastIndex := i + 1;
        if lastIndex == |s| {
          return Err(IndexOutOfRange);
        }
        if s[lastIndex] == Nul {
          break;
        }
        assert t[i - start + 1..] == s[lastIndex..];
      }
      i := i + 1;
    }
    if i == |s| {
      FirstNulAt(s[lastIndex..], |s| - lastIndex);
      assert result + [] == result;
    }
    r := Ok(result);
  }

  /** A position holding NUL with no NUL before it is what IndexOfNul finds. */
  lemma FirstNulAt(s: string, k: nat)
    requires k <= |s|
    requires k < |s| ==> s[k] == Nul
    requires forall m :: 0 <= m < k ==> s[m] != Nul
    ensures IndexOfNul(s, 0) == k
  {
  }

  /** Entries as the operating system lays them out: each followed by NUL,
      and one more NUL at the end. */
  function Encode(xs: seq<string>): string
  {
    if xs == [] then [Nul] else xs[0] + [Nul] + Encode(xs[1..])
  }

  /** An entry the list format can carry: non-empty and free of NUL. */
  predicate Storable(x: string)
  {
    |x| > 0 && Nul !in x
  }

  /** Parsing the operating system's layout gives back the entries. */
  lemma {:induction false} EntriesOfEncode(xs: seq<string>)
    requires forall x :: x in xs ==> Storable(x)
    ensures Entries(Encode(xs)) == Ok(xs)
  {
    var s := Encode(xs);
    if xs == [] {
      FirstNulAt(s, 0);
    } else {
      var x := xs[0];
      assert Storable(x);
      assert s == x + [Nul] + Encode(xs[1..]);
      FirstNulAt(s, |x|);
      assert s[..|x|] == x;
      assert s[|x| + 1..] == Encode(xs[1..]);
      if xs[1..] == [] {
        assert s[|x| + 1] == Nul && xs == [x];
      } else {
        assert Storable(xs[1..][0]);
        assert s[|x| + 1] == xs[1..][0][0];
        EntriesOfEncode(xs[1..]);
        assert [x] + xs[1..] == xs;
      }
    }
  }

  /** Every entry the loop collects can be stored in the format. */
  lemma {:induction false} EntriesStorable(s: string)
    requires Entries(s).Ok?
    ensures forall x :: x in Entries(s).value ==> Storable(x)
    decreases |s|
  {
    var k := IndexOfNul(s, 0);
    if k < |s| && k != 0 && k + 1 < |s| {
      assert Nul !in s[..k] by {
        forall m | 0 <= m < k ensures s[..k][m] != Nul {
        }
      }
      if s[k + 1] != Nul {
        EntriesStorable(s[k + 1..]);
      }
    }
  }

  /** A buffer that ends after a single NUL makes the loop fail. */
  lemma SingleTerminatorFails(x: string)
    requires Storable(x)
    ensures Entries(x + [Nul]) == Err(IndexOutOfRange)
  {
    FirstNulAt(x + [Nul], |x|);
  }

  /** Entries each followed by NUL, without the final extra NUL. */
  function Terminated(xs: seq<string>): string
  {
    if xs == [] then [] else xs[0] + [Nul] + Terminated(xs[1..])
  }

  /** Without the final extra NUL, a list of one or more non-empty entries
      makes the loop read one position past the end. */
  lemma {:induction false} MissingFinalNulFails(xs: seq<string>)
    requires xs != [] && forall x :: x in xs ==> Storable(x)
    ensures Entries(Terminated(xs)) == Err(IndexOutOfRange)
  {
    var x := xs[0];
    assert Storable(x);
    var s := Terminated(xs);
    assert s == x + [Nul] + Terminated(xs[1..]);
    FirstNulAt(s, |x|);
    if xs[1..] == [] {
      assert s == x + [Nul];
    } else {
      assert Storable(xs[1..][0]);
      assert s[|x| + 1..] == Terminated(xs[1..]);
      assert s[|x| + 1] == xs[1..][0][0];
      MissingFinalNulFails(xs[1..]);
    }
  }

  /** The loop stops at the first empty entry: whatever follows a double NUL
      is ignored, even text that lacks the final extra NUL. */
  lemma EmptyEntryStops(x: string, rest: string)
    requires Storable(x)
    ensures Entries(x + [Nul, Nul] + rest) == Ok([x])
  {
    var s := x + [Nul, Nul] + rest;
    FirstNulAt(s, |x|);
    assert s[..|x|] == x;
  }

  /** Two drive mounts, as the operating system reports them. */
  lemma TwoDrives()
    ensures Entries("E:\\\0F:\\\0\0") == Ok(["E:\\", "F:\\"])
  {
    var xs := ["E:\\", "F:\\"];
    assert Encode(xs) == "E:\\\0F:\\\0\0" by {
      assert xs[1..] == ["F:\\"] && xs[1..][1..] == [];
    }
    EntriesOfEncode(xs);
  }
}
