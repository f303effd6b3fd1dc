/** Operations of sds.c on dynamic strings. A string is a value that its owner
    reassigns; its spare capacity is not modelled. */
module Sds {
  import opened Bytes

  function Max(a: int, b: int): int {
    if a < b then b else a
  }

  /** The bytes from index `start` to `end` inclusive; a negative index counts from the end. */
  function Range(s: seq<byte>, start: int, end: int): seq<byte> {
    var from := if start < 0 then Max(|s| + start, 0) else start;
    var upto := if end < 0 then Max(|s| + end, 0) else end;
    if from > upto || from >= |s| then [] else s[from..if upto < |s| then upto + 1 else |s|]
  }

  /** The range after the length was cast to `int`: a string whose length is then not positive
      is emptied, and any other is treated as if it had only that many bytes. */
  function Ranged(s: seq<byte>, start: int, end: int): seq<byte> {
    CastSum(|s|, 0);
    if ToInt32(|s|) <= 0 then [] else Range(s[..ToInt32(|s|)], start, end)
  }

  /** How `sdsrange` resolves an index, in `int` arithmetic. */
  method Index(len: nat, i: int) returns (k: nat)
    requires -INT_MAX - 1 <= i <= INT_MAX
    ensures ToInt32(len) > 0 ==> k == if i < 0 then Max(ToInt32(len) + i, 0) else i
  {
    hide ToInt32;
    CastSum(len, i);
    var j := i;
    if j < 0 {
      j := ToInt32(len + j);
      if j < 0 {
        j := 0;
      }
    }
    return j;
  }

  /** `sdsrange` */
  method SdsRange(s: seq<byte>, start: int, end: int) returns (r: seq<byte>)
    requires -INT_MAX - 1 <= start <= INT_MAX && -INT_MAX - 1 <= end <= INT_MAX
    ensures r == Ranged(s, start, end)
  {
    hide ToInt32;
    CastSum(|s|, 0);
    CastSum(|s|, -1);
    if |s| == 0 {
      return s;
    }
    var start' := Index(|s|, start);
    var end' := Index(|s|, end);
    var newlen := if start' > end' then 0 else end' - start' + 1;
    if newlen != 0 {
      if start' >= ToInt32(|s|) {
        newlen := 0;
      } else if end' >= ToInt32(|s|) {
        end' := ToInt32(|s| - 1);
        newlen := if start' > end' then 0 else end' - start' + 1;
      }
    } else {
      start' := 0;
    }
    assert newlen > 0 ==> ToInt32(|s|) > 0 && start' + newlen <= ToInt32(|s|);
    if start' != 0 && newlen != 0 {
      r := s[start'..start' + newlen];
    } else {
      r := s[..newlen];
    }
    if newlen > 0 {
      PrefixSlice(s, ToInt32(|s|), start', start' + newlen);
    }
  }

  lemma PrefixSlice(s: seq<byte>, n: nat, from: nat, upto: nat)
    requires from <= upto <= n <= |s|
    ensures s[..n][from..upto] == s[from..upto]
    ensures from == 0 ==> s[from..upto] == s[..upto]
  {
  }

  /** A sum with an `int` may be cast at the end or before. */
  lemma CastSum(len: nat, i: int)
    requires -INT_MAX - 1 <= i <= INT_MAX
    ensures ToInt32(len) <= len
    ensures ToInt32(len) > 0 && i < 0 ==> ToInt32(len + i) == ToInt32(len) + i
    ensures len <= INT_MAX ==> ToInt32(len) == len
  {
  }

  /** `sdsrange(s, n, -1)` drops exactly the first `n` bytes if and only if the string has at
      most INT_MAX bytes; from a longer one it drops more. */
  lemma DropsPrefix(s: seq<byte>, n: nat)
    requires 0 < n <= |s| && n <= INT_MAX
    ensures var r := Ranged(s, n, -1);
            && (r == s[n..] <==> |s| <= INT_MAX)
            && (|s| > INT_MAX ==> |r| < |s| - n)
  {
    CastSum(|s|, 0);
    if |s| > INT_MAX {
      CastLess(|s|);
    } else {
      assert s[..|s|] == s;
    }
  }

  lemma CastLess(len: nat)
    requires len > INT_MAX
    ensures ToInt32(len) < len
  {
  }

  /** Which bytes a range keeps, for indices of every kind: an inclusive range, indices from the
      end, indices past either end, and ranges that are empty. */
  lemma RangeLaws(s: seq<byte>, start: int, end: int)
    requires |s| <= INT_MAX
    ensures 0 <= start <= end < |s| ==> Ranged(s, start, end) == s[start..end + 1]
    ensures -|s| <= start < 0 ==> Ranged(s, start, end) == Ranged(s, |s| + start, end)
    ensures -|s| <= end < 0 ==> Ranged(s, start, end) == Ranged(s, start, |s| + end)
    ensures start < -|s| ==> Ranged(s, start, end) == Ranged(s, 0, end)
    ensures end < -|s| ==> Ranged(s, start, end) == Ranged(s, start, 0)
    ensures s != [] && end >= |s| ==> Ranged(s, start, end) == Ranged(s, start, |s| - 1)
    ensures start >= |s| || 0 <= end < start || s == [] ==> Ranged(s, start, end) == []
  {
    CastSum(|s|, 0);
    assert s[..|s|] == s;
  }
}
