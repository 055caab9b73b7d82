/**
 unsignedToString and parseUnsigned of include/xloil/StringUtils.h (lines 325-370 and 398-458):
 a size_t in a fixed radix, as characters and back.  Characters are 16-bit code units.
 */
module Radix {
  import opened Basics

  const WRAP: nat := 0x1_0000_0000_0000_0000   // size_t
  const BUFFER_SIZE: nat := 64
  const NONE: nat := 255                       // (uint8_t)-1

  // ---------------------------------------------------------------- alphabets

  // What the writer puts for a remainder; beyond 'z' the characters get weird.
  function DigitChar(rem: nat): nat { if rem < 10 then rem + '0' as nat else rem + 'a' as nat - 10 }

  function DecimalSymbol(c: nat): nat { if c < '0' as nat || c > '9' as nat then NONE else c - '0' as nat }

  // The reader's table, from '0' to 'z', for a character taken as an int16_t.
  function StandardSymbol(c: nat): nat {
    if '0' as nat <= c <= '9' as nat then c - '0' as nat
    else if 'A' as nat <= c <= 'Z' as nat then c - 'A' as nat + 10
    else if 'a' as nat <= c <= 'z' as nat then c - 'a' as nat + 10
    else NONE
  }

  function Symbol(radix: nat, c: nat): nat { if radix <= 10 then DecimalSymbol(c) else StandardSymbol(c) }

  predicate IsDigit(radix: nat, c: nat) { Symbol(radix, c) < radix }

  // ---------------------------------------------------------------- texts and their values

  // Quotient and remainder, by taking the radix away.
  function Quotient(v: nat, radix: nat): nat
    requires radix >= 1
  {
    if v < radix then 0 else 1 + Quotient(v - radix, radix)
  }

  function Remainder(v: nat, radix: nat): nat
    requires radix >= 1
  {
    if v < radix then v else Remainder(v - radix, radix)
  }

  lemma {:induction false} Division(v: nat, radix: nat)
    requires radix >= 1
    ensures v == radix * Quotient(v, radix) + Remainder(v, radix) && Remainder(v, radix) < radix
  {
    if v >= radix {
      Division(v - radix, radix);
      assert radix * (1 + Quotient(v - radix, radix)) == radix + radix * Quotient(v - radix, radix);
    }
  }

  lemma {:induction false} QuotientSmaller(v: nat, radix: nat)
    requires radix >= 2
    ensures Quotient(v, radix) <= v && (v > 0 ==> Quotient(v, radix) < v)
  {
    if v >= radix { QuotientSmaller(v - radix, radix); }
  }

  // They are the source's / and %.
  lemma DivisionIs(v: nat, radix: nat)
    requires radix >= 1
    ensures v / radix == Quotient(v, radix) && v % radix == Remainder(v, radix)
  {
    Division(v, radix);
    Unique(v / radix, v % radix, Quotient(v, radix), Remainder(v, radix), radix);
  }

  lemma Unique(q: nat, r: nat, q': nat, r': nat, d: nat)
    requires r < d && r' < d && d * q + r == d * q' + r'
    ensures q == q' && r == r'
  {
    assert d * (q + 1) == d * q + d && d * (q' + 1) == d * q' + d;
    if q < q' { MulMono(q + 1, q', d); }
    if q' < q { MulMono(q' + 1, q, d); }
  }

  // The digits of v, most significant first.
  function Text(radix: nat, v: nat): (t: seq<nat>)
    requires radix >= 2
    ensures |t| > 0
    decreases v
  {
    QuotientSmaller(v, radix);
    (if Quotient(v, radix) == 0 then [] else Text(radix, Quotient(v, radix))) + [DigitChar(Remainder(v, radix))]
  }

  // The positional value of a text.
  function Value(radix: nat, t: seq<nat>): nat {
    if t == [] then 0 else Value(radix, t[..|t| - 1]) * radix + Symbol(radix, t[|t| - 1])
  }

  ghost predicate AllDigits(radix: nat, t: seq<nat>) { forall k :: 0 <= k < |t| ==> IsDigit(radix, t[k]) }

  // The reader takes exactly the two cases of each letter for the same digit.
  const LOWER := "0123456789abcdefghijklmnopqrstuvwxyz"
  const UPPER := "0123456789ABCDEFGHIJKLMNOPQRSTUVWXYZ"

  lemma SymbolExactly(c: nat, d: nat)
    requires d < 36
    ensures StandardSymbol(c) == d <==> c == LOWER[d] as nat || c == UPPER[d] as nat
    ensures DecimalSymbol(c) == d <==> d < 10 && c == LOWER[d] as nat
    ensures DigitChar(d) == LOWER[d] as nat
    ensures StandardSymbol(c) < 36 || StandardSymbol(c) == 255
    ensures DecimalSymbol(c) < 10 || DecimalSymbol(c) == 255
  {
    LowerRow(d);
    UpperRow(d);
  }

  lemma LowerRow(d: nat)
    requires d < 36
    ensures LOWER[d] as nat == if d < 10 then 48 + d else 87 + d
  {
  }

  lemma UpperRow(d: nat)
    requires d < 36
    ensures UPPER[d] as nat == if d < 10 then 48 + d else 55 + d
  {
  }

  lemma DigitRoundTrip(radix: nat, rem: nat)
    requires 2 <= radix <= 36 && rem < radix
    ensures Symbol(radix, DigitChar(rem)) == rem
  {
  }

  lemma AppendDigit(radix: nat, before: seq<nat>, c: nat)
    requires AllDigits(radix, before) && IsDigit(radix, c)
    ensures AllDigits(radix, before + [c])
    ensures Value(radix, before + [c]) == Value(radix, before) * radix + Symbol(radix, c)
  {
    assert (before + [c])[..|before|] == before;
  }

  // The text of all digits but the last.
  function Higher(radix: nat, q: nat): seq<nat>
    requires radix >= 2
  {
    if q == 0 then [] else Text(radix, q)
  }

  lemma {:induction false} TextValue(radix: nat, v: nat)
    requires 2 <= radix <= 36
    ensures AllDigits(radix, Text(radix, v)) && Value(radix, Text(radix, v)) == v
    decreases v
  {
    Division(v, radix);
    QuotientSmaller(v, radix);
    var q, r := Quotient(v, radix), Remainder(v, radix);
    DigitRoundTrip(radix, r);
    if q != 0 { TextValue(radix, q); }
    AppendDigit(radix, Higher(radix, q), DigitChar(r));
    assert q == 0 ==> radix * q == 0;
    assert Text(radix, v) == Higher(radix, q) + [DigitChar(r)];
  }

  // ---------------------------------------------------------------- how long

  lemma {:induction false} BelowPower(radix: nat, t: seq<nat>)
    requires AllDigits(radix, t)
    ensures Value(radix, t) < Pow(radix, |t|)
  {
    if t != [] {
      var before := t[..|t| - 1];
      BelowPower(radix, before);
      var last := Symbol(radix, t[|t| - 1]);
      assert IsDigit(radix, t[|t| - 1]);
      Scale(radix, Value(radix, before), Pow(radix, |before|), last);
    }
  }

  lemma Scale(radix: nat, a: nat, b: nat, digit: nat)
    requires a < b && digit < radix
    ensures a * radix + digit < radix * b
  {
    assert (a + 1) * radix <= b * radix;
  }

  lemma PowerStep(radix: nat, q: nat, r: nat, n: nat)
    requires n >= 1 && q >= Pow(radix, n - 1)
    ensures radix * q + r >= Pow(radix, n)
  {
    MulMono(Pow(radix, n - 1), q, radix);
  }

  // A text of more than one digit could not be shorter.
  lemma {:induction false} AtLeastPower(radix: nat, v: nat)
    requires radix >= 2
    ensures |Text(radix, v)| > 1 ==> v >= Pow(radix, |Text(radix, v)| - 1)
    decreases v
  {
    Division(v, radix);
    QuotientSmaller(v, radix);
    var q, r := Quotient(v, radix), Remainder(v, radix);
    assert |Text(radix, v)| == |Higher(radix, q)| + 1;
    if q != 0 {
      AtLeastPower(radix, q);
      PowerStep(radix, q, r, |Text(radix, q)|);
    }
  }

  lemma {:induction false} PowerGrows(radix: nat, j: nat, k: nat)
    requires radix >= 1 && j <= k
    ensures 1 <= Pow(radix, j) <= Pow(radix, k)
    decreases k
  {
    if j < k {
      PowerGrows(radix, j, k - 1);
      assert radix * Pow(radix, k - 1) >= Pow(radix, k - 1);
    } else if k > 0 {
      PowerGrows(radix, k - 1, k - 1);
      assert radix * Pow(radix, k - 1) >= 1;
    }
  }

  lemma {:induction false} PowerAtLeastTwo(radix: nat, k: nat)
    requires radix >= 2
    ensures Pow(radix, k) >= Pow(2, k)
  {
    if k > 0 {
      PowerAtLeastTwo(radix, k - 1);
      MulMono(2, radix, Pow(radix, k - 1));
    }
  }

  lemma PowerOfTwo(k: nat)
    ensures Pow(2, k + 8) == 256 * Pow(2, k)
  {
    assert Pow(2, k + 8) == 2 * Pow(2, k + 7);
    assert Pow(2, k + 7) == 2 * Pow(2, k + 6);
    assert Pow(2, k + 6) == 2 * Pow(2, k + 5);
    assert Pow(2, k + 5) == 2 * Pow(2, k + 4);
    assert Pow(2, k + 4) == 2 * Pow(2, k + 3);
    assert Pow(2, k + 3) == 2 * Pow(2, k + 2);
    assert Pow(2, k + 2) == 2 * Pow(2, k + 1);
  }

  lemma WrapIsPower()
    ensures Pow(2, 64) == WRAP
  {
    assert Pow(2, 0) == 1;
    PowerOfTwo(0); PowerOfTwo(8); PowerOfTwo(16); PowerOfTwo(24);
    PowerOfTwo(32); PowerOfTwo(40); PowerOfTwo(48); PowerOfTwo(56);
  }

  // No text of digits with the same value is shorter than the one written.
  lemma TextIsShortest(radix: nat, t: seq<nat>)
    requires 2 <= radix && t != [] && AllDigits(radix, t)
    ensures |Text(radix, Value(radix, t))| <= |t|
  {
    var v := Value(radix, t);
    var n := |Text(radix, v)|;
    BelowPower(radix, t);
    AtLeastPower(radix, v);
    if n > |t| {
      PowerGrows(radix, |t|, n - 1);
    }
  }

  // The writer's buffer of 64 characters is large enough for every size_t.
  lemma TextFits(radix: nat, v: nat)
    requires 2 <= radix && v < WRAP
    ensures |Text(radix, v)| <= BUFFER_SIZE
  {
    AtLeastPower(radix, v);
    WrapIsPower();
    if |Text(radix, v)| > 64 {
      PowerAtLeastTwo(radix, |Text(radix, v)| - 1);
      PowerGrows(2, 64, |Text(radix, v)| - 1);
    }
  }

  // ---------------------------------------------------------------- writing

  function Reversed(s: seq<nat>): seq<nat> { seq(|s|, i requires 0 <= i < |s| => s[|s| - 1 - i]) }

  // One more character moves from the value to the buffer.
  lemma WriteStep(radix: nat, v: nat, value: nat, tail: seq<nat>)
    requires radix >= 2 && Text(radix, v) == Text(radix, value) + tail
    ensures var q := Quotient(value, radix);
      Text(radix, v) == (if q == 0 then [] else Text(radix, q)) + ([DigitChar(Remainder(value, radix))] + tail)
  {
    var a, b := Higher(radix, Quotient(value, radix)), [DigitChar(Remainder(value, radix))];
    assert Text(radix, value) == a + b;
    assert (a + b) + tail == a + (b + tail);
  }

  lemma ReversedPush(s: seq<nat>, c: nat)
    ensures Reversed(s + [c]) == [c] + Reversed(s)
  {
  }

  // The characters for v, last first, into the buffer.
  method WriteReversed(radix: nat, v: nat, buf: array<nat>) returns (p: nat)
    requires 2 <= radix <= 128 && v < WRAP && buf.Length == BUFFER_SIZE
    modifies buf
    ensures p <= BUFFER_SIZE && p == |Text(radix, v)| && Text(radix, v) == Reversed(buf[..p])
  {
    TextFits(radix, v);
    p := 0;
    var value: nat := v;
    ghost var tail: seq<nat> := [];
    assert buf[..0] == [];
    while true
      invariant p < BUFFER_SIZE && |tail| == p && tail == Reversed(buf[..p])
      invariant Text(radix, v) == Text(radix, value) + tail
      decreases value
    {
      WriteStep(radix, v, value, tail);
      DivisionIs(value, radix);
      Division(value, radix);
      QuotientSmaller(value, radix);
      var rem := value % radix;
      value := value / radix;
      buf[p] := if radix <= 10 then rem + '0' as nat else if rem < 10 then rem + '0' as nat else rem + 'a' as nat - 10;
      ReversedPush(buf[..p], buf[p]);
      assert buf[..p + 1] == buf[..p] + [buf[p]];
      tail := [DigitChar(rem)] + tail;
      p := p + 1;
      if value == 0 {
        assert [] + tail == tail;
        return;
      }
    }
  }

  // unsignedToString, TRadix <= 128: the number of characters written, or 0 if they do not fit.
  method UnsignedToString(radix: nat, v: nat, result: array<nat>, resultSize: nat) returns (len: nat)
    requires 2 <= radix <= 128 && v < WRAP && resultSize <= result.Length
    modifies result
    ensures len == if |Text(radix, v)| <= resultSize then |Text(radix, v)| else 0
    ensures result[..len] == if len == 0 then [] else Text(radix, v)
    ensures result[len..] == old(result[len..])
  {
    var buf := new nat[BUFFER_SIZE];
    var p := WriteReversed(radix, v, buf);
    if p > resultSize { return 0; }
    len := p;
    ghost var text := Text(radix, v);
    assert |text| == p && forall k :: 0 <= k < p ==> text[k] == buf[p - 1 - k];
    for i := 0 to p
      modifies result
      invariant forall k :: 0 <= k < i ==> result[k] == text[k]
      invariant result[p..] == old(result[p..])
    {
      result[i] := buf[p - 1 - i];
    }
  }

  // ---------------------------------------------------------------- reading

  // How many characters, from the first on, are digits.
  function Leading(radix: nat, s: seq<nat>): (n: nat)
    ensures n <= |s| && (n < |s| ==> !IsDigit(radix, s[n]))
    ensures AllDigits(radix, s[..n])
  {
    if s == [] || !IsDigit(radix, s[0]) then 0
    else
      var n := Leading(radix, s[1..]);
      assert s[..n + 1] == [s[0]] + s[1..][..n];
      n + 1
  }

  lemma LeadingIs(radix: nat, s: seq<nat>, n: nat)
    requires n <= |s| && AllDigits(radix, s[..n]) && (n < |s| ==> !IsDigit(radix, s[n]))
    ensures Leading(radix, s) == n
  {
    var m := Leading(radix, s);
    forall k | 0 <= k < m ensures IsDigit(radix, s[k]) { assert s[..m][k] == s[k]; }
    forall k | 0 <= k < n ensures IsDigit(radix, s[k]) { assert s[..n][k] == s[k]; }
  }

  // The value of the leading digits, in a size_t, and how many there are.
  function Parse(radix: nat, s: seq<nat>): (nat, nat) {
    (Value(radix, s[..Leading(radix, s)]) % WRAP, Leading(radix, s))
  }

  lemma WrapStep(a: nat, radix: nat, digit: nat)
    ensures (a % WRAP * radix + digit) % WRAP == (a * radix + digit) % WRAP
  {
    var q, r := a / WRAP, a % WRAP;
    assert a == WRAP * q + r;
    assert a * radix == WRAP * (q * radix) + r * radix by {
      assert (WRAP * q) * radix == WRAP * (q * radix);
      assert (WRAP * q + r) * radix == (WRAP * q) * radix + r * radix;
    }
    AddMultiple(r * radix + digit, q * radix);
  }

  lemma AddMultiple(x: nat, k: nat)
    ensures (x + WRAP * k) % WRAP == x % WRAP
  {
  }

  // parseUnsigned: the source reads the first character without asking whether there is one.
  method ParseUnsigned(radix: nat, s: seq<nat>) returns (val: nat, begin: nat)
    requires s != []
    ensures (val, begin) == Parse(radix, s)
  {
    val, begin := 0, 0;
    while true
      invariant begin < |s| && AllDigits(radix, s[..begin])
      invariant val == Value(radix, s[..begin]) % WRAP
      decreases |s| - begin
    {
      var v := if radix <= 10 then DecimalSymbol(s[begin]) else StandardSymbol(s[begin]);
      if v >= radix {
        LeadingIs(radix, s, begin);
        return;
      }
      WrapStep(Value(radix, s[..begin]), radix, v);
      assert s[..begin + 1][..begin] == s[..begin];
      val := (val * radix + v) % WRAP;
      begin := begin + 1;
      if begin == |s| {
        LeadingIs(radix, s, begin);
        return;
      }
    }
  }

  // ---------------------------------------------------------------- round trip

  // What is written for v is read back as v, all of it and nothing after it.
  lemma RoundTrip(radix: nat, v: nat, rest: seq<nat>)
    requires 2 <= radix <= 36 && v < WRAP && (rest != [] ==> !IsDigit(radix, rest[0]))
    ensures Parse(radix, Text(radix, v) + rest) == (v, |Text(radix, v)|)
  {
    TextValue(radix, v);
    var t := Text(radix, v);
    assert (t + rest)[..|t|] == t;
    LeadingIs(radix, t + rest, |t|);
  }

  // The accumulator does not overflow on the way.
  lemma {:induction false} NoOverflow(radix: nat, t: seq<nat>, k: nat)
    requires radix >= 1 && k <= |t|
    ensures Value(radix, t[..k]) <= Value(radix, t)
  {
    if k == |t| {
      assert t[..k] == t;
    } else {
      var before := t[..|t| - 1];
      NoOverflow(radix, before, k);
      assert before[..k] == t[..k];
      MulMono(1, radix, Value(radix, before));
    }
  }

  // The reader knows 36 digits, the writer has no such limit.
  lemma RoundTripExactly(radix: nat)
    requires 2 <= radix <= 128
    ensures (forall v :: 0 <= v < WRAP ==> Parse(radix, Text(radix, v)).0 == v) <==> radix <= 36
  {
    if radix <= 36 {
      forall v: nat | v < WRAP ensures Parse(radix, Text(radix, v)).0 == v {
        RoundTrip(radix, v, []);
        assert Text(radix, v) + [] == Text(radix, v);
      }
    } else {
      var t := Text(radix, 36);
      assert Quotient(36, radix) == 0 && Remainder(36, radix) == 36;
      assert t == ['{' as nat];
      assert !IsDigit(radix, '{' as nat);
      LeadingIs(radix, t, 0);
      assert t[..0] == [];
      assert Value(radix, []) == 0;
      var v: nat := 36;
      assert v < WRAP && Parse(radix, Text(radix, v)).0 != v;
    }
  }
}
