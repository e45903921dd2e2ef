/** bytes.Split on a one-byte separator, and its inverse bytes.Join. */
module Segments {
  import opened Common

  /** bytes.Join(segs, [sep]). */
  function JoinOn(segs: seq<Bytes>, sep: byte): Bytes
    requires |segs| >= 1
    decreases |segs|
  {
    if |segs| == 1 then segs[0] else segs[0] + [sep] + JoinOn(segs[1..], sep)
  }

  /** bytes.Split(s, [sep]): always at least one segment (an empty input gives
      one empty segment), no segment contains the separator, and joining the
      segments back gives the input. */
  function SplitOn(s: Bytes, sep: byte): (r: seq<Bytes>)
    ensures |r| >= 1
    ensures forall i :: 0 <= i < |r| ==> sep !in r[i]
    ensures JoinOn(r, sep) == s
    decreases |s|
  {
    if |s| == 0 then [[]]
    else if s[0] == sep then
      var rest := SplitOn(s[1..], sep);
      assert s == [] + [sep] + JoinOn(rest, sep);
      [[]] + rest
    else
      var rest := SplitOn(s[1..], sep);
      var r := [[s[0]] + rest[0]] + rest[1..];
      assert r[1..] == rest[1..];
      assert JoinOn(r, sep) == s by {
        if |rest| == 1 {
          assert JoinOn(r, sep) == [s[0]] + rest[0];
        } else {
          assert JoinOn(r, sep) == [s[0]] + rest[0] + [sep] + JoinOn(rest[1..], sep);
          assert JoinOn(rest, sep) == rest[0] + [sep] + JoinOn(rest[1..], sep);
        }
      }
      r
  }

  predicate SepFree(segs: seq<Bytes>, sep: byte) {
    forall i :: 0 <= i < |segs| ==> sep !in segs[i]
  }

  /** The other direction of the round trip: splitting a join of separator-free
      segments gives the segments back. */
  lemma {:induction false} SplitJoin(segs: seq<Bytes>, sep: byte)
    requires |segs| >= 1 && SepFree(segs, sep)
    ensures SplitOn(JoinOn(segs, sep), sep) == segs
    decreases |segs|, |segs[0]|
  {
    if |segs| == 1 {
      SplitSepFree(segs[0], sep);
    } else if |segs[0]| == 0 {
      var s := JoinOn(segs, sep);
      assert s == [sep] + JoinOn(segs[1..], sep);
      assert s[1..] == JoinOn(segs[1..], sep);
      SplitJoin(segs[1..], sep);
    } else {
      var s := JoinOn(segs, sep);
      var shorter := [segs[0][1..]] + segs[1..];
      assert shorter[1..] == segs[1..];
      assert SepFree(shorter, sep) by {
        assert forall b :: b in segs[0][1..] ==> b in segs[0];
      }
      assert s[1..] == JoinOn(shorter, sep);
      SplitJoin(shorter, sep);
      assert s[0] == segs[0][0] && s[0] != sep;
      assert [s[0]] + segs[0][1..] == segs[0];
    }
  }

  lemma {:induction false} SplitSepFree(s: Bytes, sep: byte)
    requires sep !in s
    ensures SplitOn(s, sep) == [s]
    decreases |s|
  {
    if |s| > 0 {
      assert sep !in s[1..] by {
        assert forall b :: b in s[1..] ==> b in s;
      }
      SplitSepFree(s[1..], sep);
    }
  }
}
