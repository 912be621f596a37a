/** ffstr_charcount: number of occurrences of a byte in a string, found
    by repeated forward search and shifting past each match. */
module CharCount {
  import opened Bytes

  /** ffstr_findchar: index of the first occurrence of ch in s, or -1. */
  function FindChar(s: seq<byte>, ch: byte): (i: int)
    ensures -1 <= i < |s|
    ensures i >= 0 ==> s[i] == ch && ch !in s[..i]
    ensures i == -1 <==> ch !in s
  {
    if s == [] then -1
    else if s[0] == ch then 0
    else
      var j := FindChar(s[1..], ch);
      if j < 0 then -1
      else
        assert s[..j + 1] == [s[0]] + s[1..][..j];
        j + 1
  }

  /** The positions of s holding ch. */
  function Positions(s: seq<byte>, ch: byte): set<nat>
  {
    set j: nat | j < |s| && s[j] == ch
  }

  /** ffstr_charcount: the number of bytes of s equal to ch. */
  method Count(s: seq<byte>, ch: byte) returns (r: nat)
    ensures r == multiset(s)[ch]
    ensures r == |Positions(s, ch)|
  {
    var v: seq<byte> := s;
    r := 0;
    while true
      invariant r + multiset(v)[ch] == multiset(s)[ch]
      decreases |v|
    {
      var i := FindChar(v, ch);
      if i < 0 {
        break;
      }
      assert v == v[..i] + [v[i]] + v[i + 1..];
      r := r + 1;
      v := v[i + 1..];
    }
    PositionsCount(s, ch);
  }

  /** The occurrence count of a multiset agrees with the number of
      positions: ffstr_charcount counts positions, not distinct runs. */
  lemma {:induction false} PositionsCount(s: seq<byte>, ch: byte)
    ensures |Positions(s, ch)| == multiset(s)[ch]
  {
    if s != [] {
      var t := s[..|s| - 1];
      PositionsCount(t, ch);
      assert s == t + [s[|s| - 1]];
      var last: nat := |s| - 1;
      if s[last] == ch {
        assert Positions(s, ch) == Positions(t, ch) + {last};
      } else {
        assert Positions(s, ch) == Positions(t, ch);
      }
    }
  }
}
