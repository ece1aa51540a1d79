/** Joining names with a separator, as Python's `str.join` does, and the
    splitting that undoes it. */
module Text {
  import opened Wrappers

  /** The combined length of the parts. */
  function TotalLength(parts: seq<string>): nat
    decreases |parts|
  {
    if |parts| == 0 then 0 else |parts[0]| + TotalLength(parts[1..])
  }

  /** `sep.join(parts)`: the parts in order with `sep` between neighbours,
      so one separator fewer than there are parts. */
  function Join(parts: seq<string>, sep: string): (s: string)
    ensures |parts| == 0 ==> s == ""
    ensures |parts| > 0 ==> |s| == TotalLength(parts) + (|parts| - 1) * |sep|
    ensures |parts| > 0 ==> s[..|parts[0]|] == parts[0]
    decreases |parts|
  {
    if |parts| == 0 then ""
    else if |parts| == 1 then parts[0]
    else parts[0] + sep + Join(parts[1..], sep)
  }

  /** True when `sep` occurs in `s` starting at index `i`. */
  predicate OccursAt(s: string, sep: string, i: nat)
  {
    i + |sep| <= |s| && s[i..i + |sep|] == sep
  }

  /** The first index at which `sep` occurs in `s`, if any. */
  function Find(s: string, sep: string): (r: Option<nat>)
    requires |sep| > 0
    ensures r.Some? ==> OccursAt(s, sep, r.value)
    ensures r.Some? ==> forall j: nat :: j < r.value ==> !OccursAt(s, sep, j)
    ensures r.None? ==> forall j: nat :: !OccursAt(s, sep, j)
    decreases |s|
  {
    if |s| < |sep| then None
    else if s[..|sep|] == sep then Some(0)
    else
      match Find(s[1..], sep)
      case None =>
        assert forall j: nat :: j > 0 ==> !OccursAt(s, sep, j) by {
          forall j: nat | j > 0 && OccursAt(s, sep, j) ensures false {
            assert s[1..][j - 1..j - 1 + |sep|] == s[j..j + |sep|];
            assert OccursAt(s[1..], sep, j - 1);
          }
        }
        None
      case Some(k) =>
        assert s[1..][k..k + |sep|] == s[k + 1..k + 1 + |sep|];
        assert forall j: nat :: 0 < j < k + 1 ==> !OccursAt(s, sep, j) by {
          forall j: nat | 0 < j < k + 1 ensures !OccursAt(s, sep, j) {
            if OccursAt(s, sep, j) {
              assert s[1..][j - 1..j - 1 + |sep|] == s[j..j + |sep|];
              assert OccursAt(s[1..], sep, j - 1);
            }
          }
        }
        Some(k + 1)
  }

  /** `s.split(sep)`: the pieces of `s` between occurrences of `sep`, found
      from left to right. */
  function Split(s: string, sep: string): (parts: seq<string>)
    requires |sep| > 0
    ensures |parts| > 0
    decreases |s|
  {
    match Find(s, sep)
    case None => [s]
    case Some(k) => [s[..k]] + Split(s[k + |sep|..], sep)
  }

  /** If a piece has no character that starts the separator, the first
      separator after it begins right where the piece ends. */
  lemma {:induction false} FindAfterPiece(x: string, sep: string, rest: string)
    requires |sep| > 0 && sep[0] !in x
    ensures Find(x + sep + rest, sep) == Some(|x|)
  {
    var s := x + sep + rest;
    assert OccursAt(s, sep, |x|) by {
      assert s[|x|..|x| + |sep|] == sep;
    }
    forall j: nat | j < |x| ensures !OccursAt(s, sep, j) {
      assert s[j] == x[j];
    }
  }

  /** A piece with no character that starts the separator holds no separator. */
  lemma {:induction false} FindInPiece(x: string, sep: string)
    requires |sep| > 0 && sep[0] !in x
    ensures Find(x, sep) == None
  {
    assert forall j: nat :: !OccursAt(x, sep, j);
  }

  /** Splitting the joined names gives the names back, provided none of them
      contains the first character of the separator. */
  lemma {:induction false} SplitJoin(parts: seq<string>, sep: string)
    requires |parts| > 0 && |sep| > 0
    requires forall p :: p in parts ==> sep[0] !in p
    ensures Split(Join(parts, sep), sep) == parts
    decreases |parts|
  {
    if |parts| == 1 {
      FindInPiece(parts[0], sep);
    } else {
      var tail := Join(parts[1..], sep);
      var s := parts[0] + sep + tail;
      FindAfterPiece(parts[0], sep, tail);
      assert s[..|parts[0]|] == parts[0];
      assert s[|parts[0]| + |sep|..] == tail;
      SplitJoin(parts[1..], sep);
      assert parts == [parts[0]] + parts[1..];
    }
  }
}
