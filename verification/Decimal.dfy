/** Decimal text of 64-bit integers: how hiredis prints it (sds.c, hiredis.c)
    and how its reader parses it back (read.c). */
module Decimal {
  import opened Bytes

  const ZERO: byte := 48
  const NINE: byte := 57
  const MINUS: byte := 45

  // ----- What the text of an integer is

  /** The digits of a natural number, most significant first. */
  function Dec(n: nat): (s: seq<byte>)
    ensures |s| >= 1
  {
    if n < 10 then [ZERO + n] else Dec(n / 10) + [ZERO + n % 10]
  }

  function Print(v: int): (s: seq<byte>)
    ensures |s| >= 1
  {
    if v < 0 then [MINUS] + Dec(-v) else Dec(v)
  }

  /** The 64-bit integer whose text is `s`, if there is one. */
  ghost function ParseInt(s: seq<byte>): Option<int> {
    if exists v :: IsInt64(v) && Print(v) == s then
      var v :| IsInt64(v) && Print(v) == s;
      Some(v)
    else
      None
  }

  // ----- Digits and values

  ghost predicate AllDigits(s: seq<byte>) {
    forall i | 0 <= i < |s| :: ZERO <= s[i] <= NINE
  }

  ghost function Val(s: seq<byte>): nat
    requires AllDigits(s)
  {
    if s == [] then 0 else Val(s[..|s| - 1]) * 10 + (s[|s| - 1] - ZERO)
  }

  lemma ValOfDigit(d: byte)
    requires ZERO <= d <= NINE
    ensures Val([d]) == d - ZERO
  {
    assert [d][..0] == [];
  }

  lemma {:induction false} DecDigits(n: nat)
    ensures AllDigits(Dec(n)) && Val(Dec(n)) == n
    ensures n > 0 ==> Dec(n)[0] != ZERO
  {
    if n < 10 {
      assert Dec(n)[..0] == [];
    } else {
      DecDigits(n / 10);
      assert Dec(n)[..|Dec(n)| - 1] == Dec(n / 10);
    }
  }

  lemma NextDigit(s: seq<byte>, d: byte)
    requires AllDigits(s) && ZERO <= d <= NINE && Val(s) > 0 && Dec(Val(s)) == s && AllDigits(s + [d])
    ensures Val(s + [d]) > 0 && Dec(Val(s + [d])) == s + [d]
  {
    assert (s + [d])[..|s|] == s;
    var n := Val(s + [d]);
    assert n == 10 * Val(s) + (d - ZERO);
    assert n / 10 == Val(s) && n % 10 == d - ZERO;
  }

  lemma {:induction false} DecOfVal(s: seq<byte>)
    requires s != [] && AllDigits(s) && s[0] != ZERO
    ensures Val(s) > 0 && Dec(Val(s)) == s
  {
    var init := s[..|s| - 1];
    if init == [] {
      assert Val(init) == 0;
    } else {
      assert forall i | 0 <= i < |init| :: init[i] == s[i];
      DecOfVal(init);
      NextDigit(init, s[|s| - 1]);
      assert s == init + [s[|s| - 1]];
    }
  }

  lemma {:induction false} ValOfPrefix(s: seq<byte>, k: nat)
    requires AllDigits(s) && k <= |s|
    ensures AllDigits(s[..k]) && Val(s[..k]) <= Val(s)
  {
    if k == |s| {
      assert s[..k] == s;
    } else {
      ValOfPrefix(s[..|s| - 1], k);
      assert s[..|s| - 1][..k] == s[..k];
    }
  }

  lemma PrintInjective(v: int, w: int)
    requires Print(v) == Print(w)
    ensures v == w
  {
    DecDigits(if v < 0 then -v else v);
    DecDigits(if w < 0 then -w else w);
    assert Print(v)[0] == Print(w)[0];
    if v < 0 {
      assert Print(v)[1..] == Dec(-v);
      assert Print(w)[1..] == Dec(-w);
    }
  }

  /** Every 64-bit value prints to a string that parses back to it. */
  lemma ParsePrint(v: int)
    requires IsInt64(v)
    ensures ParseInt(Print(v)) == Some(v)
  {
    var w := ParseInt(Print(v)).value;
    PrintInjective(v, w);
  }

  /** The magnitude bound of a negative or non-negative `long long`. */
  ghost function Bound(negative: bool): nat {
    if negative then LLONG_MAX + 1 else LLONG_MAX
  }

  ghost function Signed(negative: bool, magnitude: nat): int {
    if negative then 0 - magnitude else magnitude
  }

  /** A text whose digits, past an optional sign, are canonical. */
  ghost predicate Canonical(s: seq<byte>, negative: bool) {
    var start := if negative then 1 else 0;
    && |s| > start
    && (negative ==> s[0] == MINUS)
    && AllDigits(s[start..]) && s[start] != ZERO
    && Val(s[start..]) <= Bound(negative)
  }

  lemma CanonicalParses(s: seq<byte>, negative: bool)
    requires Canonical(s, negative)
    ensures ParseInt(s) == Some(Signed(negative, Val(s[if negative then 1 else 0..])))
  {
    assert s[0..] == s;
    var digits := s[if negative then 1 else 0..];
    DecOfVal(digits);
    var v := Signed(negative, Val(digits));
    assert Print(v) == s;
    ParsePrint(v);
  }

  lemma ParsesCanonical(s: seq<byte>)
    ensures ParseInt(s).Some? ==>
              s == [ZERO] || Canonical(s, s[0] == MINUS)
    ensures ParseInt(s).Some? ==> |s| >= 1
  {
    if ParseInt(s).Some? {
      var v := ParseInt(s).value;
      DecDigits(if v < 0 then -v else v);
      if v < 0 {
        assert s[1..] == Dec(-v);
      } else {
        assert s[0..] == Dec(v);
      }
    }
  }

  // ----- The parser of the reader

  /** What `string2ll` has read of `s` after `plen` bytes: the sign and the
      digits of `v`. */
  ghost predicate Scanned(s: seq<byte>, negative: bool, plen: nat, v: int) {
    var start := if negative then 1 else 0;
    && start < plen <= |s|
    && (negative <==> s[0] == MINUS)
    && s[start] != ZERO
    && AllDigits(s[start..plen]) && v == Val(s[start..plen])
  }

  lemma DropTake(s: seq<byte>, from: nat, n: nat)
    requires from + n <= |s|
    ensures s[from..][..n] == s[from..from + n]
  {
  }

  lemma ScanStep(s: seq<byte>, negative: bool, plen: nat, v: int)
    requires Scanned(s, negative, plen, v)
    requires plen < |s| && ZERO <= s[plen] <= NINE
    ensures Scanned(s, negative, plen + 1, v * 10 + (s[plen] - ZERO))
    ensures v * 10 + (s[plen] - ZERO) > ULLONG_MAX ==> ParseInt(s).None?
  {
    hide ParseInt;
    var start := if negative then 1 else 0;
    assert s[start..plen + 1][..plen - start] == s[start..plen];
    ParsesCanonical(s);
    if ParseInt(s).Some? {
      ValOfPrefix(s[start..], plen + 1 - start);
      DropTake(s, start, plen + 1 - start);
    }
  }

  lemma ScanEnd(s: seq<byte>, negative: bool, plen: nat, v: int)
    requires Scanned(s, negative, plen, v)
    requires plen == |s| || !(ZERO <= s[plen] <= NINE)
    ensures ParseInt(s) == if plen == |s| && v <= Bound(negative) then Some(Signed(negative, v)) else None
  {
    hide ParseInt;
    var start := if negative then 1 else 0;
    ParsesCanonical(s);
    if plen < |s| {
      assert s[start..][plen - start] == s[plen];
    } else {
      assert s[start..plen] == s[start..];
      if v <= Bound(negative) {
        CanonicalParses(s, negative);
      }
    }
  }

  /** `string2ll`: accumulates an `unsigned long long` with overflow tests. */
  method String2ll(s: seq<byte>) returns (r: Option<int>)
    ensures r == ParseInt(s)
    ensures r.Some? ==> IsInt64(r.value)
  {
    hide ParseInt;
    ParsesCanonical(s);
    var plen := 0;
    var negative := false;
    if plen == |s| {
      return None;
    }
    if |s| == 1 && s[0] == ZERO {
      ParsePrint(0);
      assert s == Print(0);
      return Some(0);
    }
    if s[0] == MINUS {
      negative := true;
      plen := plen + 1;
      if plen == |s| {
        return None;
      }
    }
    var v: int;
    if ZERO + 1 <= s[plen] <= NINE {
      v := s[plen] - ZERO;
      assert s[plen..plen + 1] == [s[plen]];
      ValOfDigit(s[plen]);
      plen := plen + 1;
    } else if s[plen] == ZERO && |s| == 1 {
      assert false;
      return Some(0);
    } else {
      return None;
    }
    while plen < |s| && ZERO <= s[plen] <= NINE
      invariant 0 <= v <= ULLONG_MAX && Scanned(s, negative, plen, v)
    {
      ScanStep(s, negative, plen, v);
      if v > ULLONG_MAX / 10 {
        return None;
      }
      v := v * 10;
      if v > ULLONG_MAX - (s[plen] - ZERO) {
        return None;
      }
      v := v + (s[plen] - ZERO);
      plen := plen + 1;
    }
    ScanEnd(s, negative, plen, v);
    if plen < |s| {
      return None;
    }
    if negative {
      if v > (-(LLONG_MIN + 1)) + 1 {
        return None;
      }
      r := Some(ToInt64(ToUInt64(-v)));
    } else {
      if v > LLONG_MAX {
        return None;
      }
      r := Some(ToInt64(v));
    }
  }

  // ----- The printers of sds and the digit count of the formatters

  function Pow10(k: nat): (p: nat)
    ensures p > 0
  {
    if k == 0 then 1 else 10 * Pow10(k - 1)
  }

  lemma {:induction false} DecLength(n: nat, k: nat)
    requires k >= 1 && n < Pow10(k)
    ensures |Dec(n)| <= k
  {
    if n >= 10 {
      DecLength(n / 10, k - 1);
    }
  }

  lemma {:induction false} DecLongEnough(n: nat, k: nat)
    requires n >= Pow10(k)
    ensures |Dec(n)| > k
  {
    if k > 0 {
      DecLongEnough(n / 10, k - 1);
    }
  }

  lemma DivideTwice(n: nat, p: nat)
    requires p > 0
    ensures n / 10 / p == n / (10 * p)
  {
    var m := n / 10;
    var q, r := m / p, m % p;
    assert m == q * p + r;
    assert n == q * (10 * p) + (10 * r + n % 10);
    assert 10 * r + n % 10 < 10 * p;
    QuotientIs(n, 10 * p, q, 10 * r + n % 10);
  }

  lemma QuotientIs(n: nat, d: nat, q: nat, r: nat)
    requires n == q * d + r && r < d
    ensures n / d == q
  {
    var q', r' := n / d, n % d;
    assert n == q' * d + r';
    if q < q' {
      OneMultipleMore(d, q, q');
    } else if q' < q {
      OneMultipleMore(d, q', q);
    }
  }

  lemma OneMultipleMore(d: nat, q: nat, q': nat)
    requires q < q'
    ensures q' * d >= q * d + d
  {
    assert q' * d == (q + 1) * d + (q' - q - 1) * d;
  }

  /** The text of a number in the usual notation: '0' plus the k-th digit stands at the k-th place
      from the right, and there are no more digits than needed. */
  lemma {:induction false} DigitAt(n: nat, k: nat)
    requires k < |Dec(n)|
    ensures Dec(n)[|Dec(n)| - 1 - k] == 48 + n / Pow10(k) % 10
    ensures n < Pow10(|Dec(n)|) && (n >= 10 ==> Pow10(|Dec(n)| - 1) <= n)
    decreases n, k
  {
    if n >= 10 {
      if k > 0 {
        DigitAt(n / 10, k - 1);
        DivideTwice(n, Pow10(k - 1));
      } else {
        DigitAt(n / 10, 0);
      }
    }
  }

  lemma DecLength64(n: nat)
    requires n <= ULLONG_MAX
    ensures |Dec(n)| <= 20
    ensures n <= LLONG_MAX + 1 ==> |Dec(n)| <= 19
  {
    assert Pow10(5) == 100_000;
    assert Pow10(10) == 100_000 * 100_000;
    assert Pow10(15) == 100_000 * 100_000 * 100_000;
    assert Pow10(20) == 100_000 * 100_000 * 100_000 * 100_000;
    DecLength(n, 20);
    assert Pow10(4) == 10_000;
    assert Pow10(9) == 100_000 * 10_000;
    assert Pow10(14) == 100_000 * 100_000 * 10_000;
    assert Pow10(19) == 100_000 * 100_000 * 100_000 * 10_000;
    if n <= LLONG_MAX + 1 {
      DecLength(n, 19);
    }
  }

  /** `countDigits`: the number of digits, four at a time. */
  method CountDigits(value: nat) returns (result: nat)
    ensures result == |Dec(value)|
  {
    var v := value;
    result := 1;
    while true
      invariant result + |Dec(v)| == |Dec(value)| + 1
      decreases v
    {
      if v < 10 {
        return;
      }
      if v < 100 {
        return result + 1;
      }
      assert |Dec(v)| == 1 + |Dec(v / 10)|;
      assert |Dec(v / 10)| == 1 + |Dec(v / 10 / 10)|;
      if v < 1000 {
        return result + 2;
      }
      assert |Dec(v / 100)| == 1 + |Dec(v / 100 / 10)|;
      if v < 10000 {
        return result + 3;
      }
      FourDigits(v);
      v := v / 10000;
      result := result + 4;
    }
  }

  lemma FourDigits(v: nat)
    requires v >= 10000
    ensures |Dec(v)| == 4 + |Dec(v / 10000)|
  {
    assert |Dec(v)| == 1 + |Dec(v / 10)|;
    assert |Dec(v / 10)| == 1 + |Dec(v / 10 / 10)|;
    assert |Dec(v / 100)| == 1 + |Dec(v / 100 / 10)|;
    assert |Dec(v / 1000)| == 1 + |Dec(v / 1000 / 10)|;
  }

  /** The digits of a natural number, least significant first. */
  ghost function RevDec(n: nat): seq<byte> {
    [ZERO + n % 10] + if n < 10 then [] else RevDec(n / 10)
  }

  ghost predicate Reversed(s: seq<byte>, t: seq<byte>) {
    |s| == |t| && forall i | 0 <= i < |s| :: t[i] == s[|s| - 1 - i]
  }

  lemma {:induction false} RevDecReversed(n: nat)
    ensures Reversed(RevDec(n), Dec(n))
  {
    if n >= 10 {
      RevDecReversed(n / 10);
    }
  }

  lemma ReversedUnique(s: seq<byte>, t: seq<byte>, u: seq<byte>)
    requires Reversed(s, t) && Reversed(s, u)
    ensures t == u
  {
    assert forall i | 0 <= i < |s| :: t[i] == u[i];
  }

  /** Writes the digits of `value` at the start of `s`, least significant first. */
  method WriteReversed(s: array<byte>, value: nat) returns (p: nat)
    requires value <= ULLONG_MAX && s.Length >= 21
    modifies s
    ensures 1 <= p <= 20 && s[..p] == RevDec(value)
    ensures forall k | p <= k < s.Length :: s[k] == old(s[k])
  {
    DecLength64(value);
    RevDecReversed(value);
    ghost var text := RevDec(value);
    var v := value;
    p := 0;
    while true
      invariant 0 <= p < |text| <= 20 && 0 <= v
      invariant RevDec(v) == text[p..]
      invariant forall k | 0 <= k < p :: s[k] == text[k]
      invariant forall k | p <= k < s.Length :: s[k] == old(s[k])
      decreases v
    {
      assert text[p] == text[p..][0];
      s[p] := ZERO + v % 10;
      if v < 10 {
        p := p + 1;
        return;
      }
      assert text[p + 1..] == text[p..][1..];
      v := v / 10;
      p := p + 1;
    }
  }

  /** The two ends meet in the middle: reverses the first `l` bytes. */
  method ReverseInPlace(s: array<byte>, l: nat)
    requires 1 <= l <= s.Length
    modifies s
    ensures Reversed(old(s[..l]), s[..l])
    ensures forall k | l <= k < s.Length :: s[k] == old(s[k])
  {
    var i, p := 0, l - 1;
    while i < p
      invariant 0 <= i <= p + 1 <= l && i + p == l - 1
      invariant forall k | 0 <= k < i :: s[k] == old(s[l - 1 - k]) && s[l - 1 - k] == old(s[k])
      invariant forall k | i <= k <= p :: s[k] == old(s[k])
      invariant forall k | l <= k < s.Length :: s[k] == old(s[k])
    {
      s[i], s[p] := s[p], s[i];
      i, p := i + 1, p - 1;
    }
  }

  /** The magnitude of a `long long`, negated in two's complement: right for
      LLONG_MIN too. */
  function Magnitude(value: int): (v: nat)
    requires IsInt64(value)
    ensures v == (if value < 0 then -value else value) <= LLONG_MAX + 1
  {
    if value < 0 then ToUInt64(ToInt64(-value)) else value
  }

  ghost function Sign(value: int): seq<byte> {
    if value < 0 then [MINUS] else []
  }

  lemma PrintReversed(value: int)
    requires IsInt64(value)
    ensures Reversed(RevDec(Magnitude(value)) + Sign(value), Print(value))
    ensures |Print(value)| <= 20
  {
    hide Dec;
    hide RevDec;
    RevDecReversed(Magnitude(value));
    DecLength64(Magnitude(value));
  }

  /** `sdsll2str`: prints a signed 64-bit integer and terminates it. */
  method Sdsll2str(s: array<byte>, value: int) returns (l: nat)
    requires IsInt64(value) && s.Length >= 21
    modifies s
    ensures l < s.Length && s[..l] == Print(value) && s[l] == 0
    ensures forall k | l < k < s.Length :: s[k] == old(s[k])
  {
    hide Print;
    hide Magnitude;
    var v := Magnitude(value);
    var p := WriteReversed(s, v);
    PrintReversed(value);
    ghost var text := RevDec(v) + Sign(value);
    if value < 0 {
      s[p] := MINUS;
      p := p + 1;
    }
    l := p;
    assert s[..l] == text;
    s[p] := 0;
    assert s[..l] == text;
    ReverseInPlace(s, l);
    ReversedUnique(text, Print(value), s[..l]);
  }

  /** `sdsull2str`: the same for an unsigned 64-bit integer. */
  method Sdsull2str(s: array<byte>, value: nat) returns (l: nat)
    requires value <= ULLONG_MAX && s.Length >= 21
    modifies s
    ensures l < s.Length && s[..l] == Dec(value) && s[l] == 0
    ensures forall k | l < k < s.Length :: s[k] == old(s[k])
  {
    l := WriteReversed(s, value);
    RevDecReversed(value);
    s[l] := 0;
    ghost var text := s[..l];
    ReverseInPlace(s, l);
    ReversedUnique(text, Dec(value), s[..l]);
  }
}
