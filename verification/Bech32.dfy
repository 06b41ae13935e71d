/** The Bech32 checksum of `indexer/address_utils.py`: a six-symbol remainder kept in a
    30-bit shift register with exclusive-or feedback (BIP 173, section "Bech32"). */
module Bech32 {
  import opened Bits

  const GENERATOR: seq<nat> := [0x3B6A57B2, 0x26508E6D, 0x1EA119FA, 0x3D4233DD, 0x2A1462B3]

  /** The generator word `g`, if the lowest bit of `b` is set. */
  function Tap(b: nat, g: nat): nat {
    if Low(b, 1) != 0 then g else 0
  }

  /** What the first `n` generators contribute for the bits `b` shifted out of the register. */
  function Feedback(gs: seq<nat>, b: nat, n: nat): nat
    requires n <= |gs|
  {
    if n == 0 then 0 else Xor(Feedback(gs, b, n - 1), Tap(Shr(b, n - 1), gs[n - 1]))
  }

  function Carry(chk: nat): nat { Low(Shr(chk, 25), 8) }

  /** The register after one symbol is pushed into it. */
  function Push(chk: nat, v: nat): nat {
    PushWith(GENERATOR, chk, v)
  }

  function PushWith(gs: seq<nat>, chk: nat, v: nat): nat {
    Xor(Xor(Shl(Low(chk, 25), 5), v), Feedback(gs, Carry(chk), |gs|))
  }

  function PushAll(chk: nat, values: seq<nat>): nat
    decreases |values|
  {
    if values == [] then chk else PushAll(Push(chk, values[0]), values[1..])
  }

  lemma {:induction false} PushAllConcat(chk: nat, a: seq<nat>, b: seq<nat>)
    ensures PushAll(chk, a + b) == PushAll(PushAll(chk, a), b)
    decreases |a|
  {
    if a == [] {
      assert a + b == b;
    } else {
      assert (a + b)[1..] == a[1..] + b;
      PushAllConcat(Push(chk, a[0]), a[1..], b);
    }
  }

  method Polymod(values: seq<nat>) returns (chk: nat)
    ensures chk == PushAll(1, values)
  {
    chk := 1;
    for n := 0 to |values|
      invariant chk == PushAll(1, values[..n])
    {
      PushAllConcat(1, values[..n], [values[n]]);
      assert values[..n + 1] == values[..n] + [values[n]];
      var b := Low(Shr(chk, 25), 8);
      chk := Xor(Shl(Low(chk, 25), 5), values[n]);
      chk := AddFeedback(GENERATOR, chk, b);
    }
    assert values[..|values|] == values;
  }

  method AddFeedback(gs: seq<nat>, shifted: nat, b: nat) returns (chk: nat)
    ensures chk == Xor(shifted, Feedback(gs, b, |gs|))
  {
    chk := shifted;
    XorZero(shifted);
    for i := 0 to |gs|
      invariant chk == Xor(shifted, Feedback(gs, b, i))
    {
      var g, bit := gs[i], Low(Shr(b, i), 1);
      XorAssociates(shifted, Feedback(gs, b, i), Tap(Shr(b, i), g));
      if bit != 0 {
        chk := Xor(chk, g);
      } else {
        XorZero(Feedback(gs, b, i));
      }
    }
  }

  // ---- The register is linear ----

  lemma TapLinear(b: nat, c: nat, g: nat)
    ensures Tap(Xor(b, c), g) == Xor(Tap(b, g), Tap(c, g))
  {
    var d := Xor(b, c);
    assert d % 2 == (if b % 2 == c % 2 then 0 else 1) by { XorHalves(b, c); }
    LowOne(b);
    LowOne(c);
    LowOne(d);
    if b % 2 == c % 2 == 1 { XorSelf(g); } else { XorZero(g); XorZero(0); }
  }

  lemma {:induction false} FeedbackLinear(gs: seq<nat>, b: nat, c: nat, n: nat)
    requires n <= |gs|
    ensures Feedback(gs, Xor(b, c), n) == Xor(Feedback(gs, b, n), Feedback(gs, c, n))
  {
    if n == 0 {
      XorZero(0);
    } else {
      FeedbackLinear(gs, b, c, n - 1);
      XorShr(b, c, n - 1);
      AddTap(Feedback(gs, b, n - 1), Feedback(gs, c, n - 1), Shr(b, n - 1), Shr(c, n - 1), gs[n - 1]);
    }
  }

  lemma AddTap(p: nat, q: nat, b: nat, c: nat, g: nat)
    ensures Xor(Xor(p, q), Tap(Xor(b, c), g)) == Xor(Xor(p, Tap(b, g)), Xor(q, Tap(c, g)))
  {
    TapLinear(b, c, g);
    XorExchange(p, q, Tap(b, g), Tap(c, g));
  }

  lemma PushLinear(gs: seq<nat>, a: nat, b: nat, u: nat, v: nat)
    ensures PushWith(gs, Xor(a, b), Xor(u, v)) == Xor(PushWith(gs, a, u), PushWith(gs, b, v))
  {
    var sa, sb := Shl(Low(a, 25), 5), Shl(Low(b, 25), 5);
    XorLow(a, b, 25);
    XorShl(Low(a, 25), Low(b, 25), 5);
    XorShr(a, b, 25);
    XorLow(Shr(a, 25), Shr(b, 25), 8);
    FeedbackLinear(gs, Carry(a), Carry(b), |gs|);
    XorExchange(sa, sb, u, v);
    XorExchange(Xor(sa, u), Xor(sb, v), Feedback(gs, Carry(a), |gs|), Feedback(gs, Carry(b), |gs|));
  }

  /** The register over a pointwise exclusive or of two symbol lists. */
  lemma {:induction false} PushAllLinear(a: nat, b: nat, us: seq<nat>, vs: seq<nat>, ws: seq<nat>)
    requires |us| == |vs| == |ws|
    requires forall i :: 0 <= i < |us| ==> ws[i] == Xor(us[i], vs[i])
    ensures PushAll(Xor(a, b), ws) == Xor(PushAll(a, us), PushAll(b, vs))
    decreases |us|
  {
    if us != [] {
      PushLinear(GENERATOR, a, b, us[0], vs[0]);
      PushAllLinear(Push(a, us[0]), Push(b, vs[0]), us[1..], vs[1..], ws[1..]);
    }
  }

  // ---- Six five-bit symbols pushed into an empty register are just packed ----

  lemma {:induction false} NoFeedback(gs: seq<nat>, n: nat)
    requires n <= |gs|
    ensures Feedback(gs, 0, n) == 0
  {
    if n > 0 {
      NoFeedback(gs, n - 1);
      ShrZero(n - 1);
      LowOne(0);
      XorZero(0);
    }
  }

  lemma NoCarry(x: nat)
    requires Fits(x, 25)
    ensures Carry(x) == 0
  {
    LowZero(8);
  }

  lemma PushWithoutCarry(gs: seq<nat>, x: nat, c: nat)
    requires Fits(x, 25) && Fits(c, 5)
    ensures PushWith(gs, x, c) == Shl(x, 5) + c
  {
    LowOfFitting(x, 25);
    NoCarry(x);
    NoFeedback(gs, |gs|);
    XorFill(x, c, 5);
    XorZero(Shl(x, 5) + c);
  }

  lemma {:induction false} PushAllPacks(x: nat, k: nat, symbols: seq<nat>)
    requires Digits(symbols, 5) && Fits(x, k) && k + 5 * |symbols| <= 30
    ensures PushAll(x, symbols) == Read(x, symbols, 5)
    decreases |symbols|
  {
    if symbols != [] {
      var c := symbols[0];
      var y := Shl(x, 5) + c;
      FitsMore(x, k, 25);
      PushWithoutCarry(GENERATOR, x, c);
      assert Fits(y, 5 + k) by { FillShr(x, c, 5); ShrShr(y, 5, k); }
      PushAllPacks(y, 5 + k, symbols[1..]);
    }
  }

  /** `[(p >> 5 * (n - 1 - i)) & 31 for i in range(n)]` */
  function Unpack(p: nat, n: nat): (symbols: seq<nat>) {
    seq(n, i requires 0 <= i < n => Symbol(p, n - 1 - i))
  }

  function Symbol(p: nat, k: nat): nat {
    Low(Shr(p, 5 * k), 5)
  }

  lemma {:induction false} ReadUnpack(p: nat, n: nat)
    ensures Digits(Unpack(p, n), 5)
    ensures Read(Shr(p, 5 * n), Unpack(p, n), 5) == p
  {
    forall i | 0 <= i < n ensures Fits(Unpack(p, n)[i], 5) {
      assert Unpack(p, n)[i] == Symbol(p, n - 1 - i);
      LowFits(Shr(p, 5 * (n - 1 - i)), 5);
    }
    if n > 0 {
      var m := 5 * (n - 1);
      ShrShr(p, m, 5);
      SplitAt(Shr(p, m), 5);
      assert Unpack(p, n)[0] == Symbol(p, n - 1) && Unpack(p, n)[1..] == Unpack(p, n - 1);
      ReadUnpack(p, n - 1);
    }
  }

  // ---- The register never grows past 30 bits ----

  lemma {:induction false} FeedbackFits(gs: seq<nat>, b: nat, n: nat)
    requires n <= |gs| && forall i :: 0 <= i < |gs| ==> Fits(gs[i], 30)
    ensures Fits(Feedback(gs, b, n), 30)
  {
    ShrZero(30);
    if n > 0 {
      FeedbackFits(gs, b, n - 1);
      XorFits(Feedback(gs, b, n - 1), Tap(Shr(b, n - 1), gs[n - 1]), 30);
    }
  }

  /** Twice a symbol, in the field of 32 elements with a^5 = a^3 + 1: an overflow of the fifth bit flips the
      third and the lowest, which is clear. */
  function Twice(s: nat): nat {
    if s < 16 then 2 * s
    else 2 * s - 32 + 1 + if s / 4 % 2 == 0 then 8 else -8
  }

  /** The coefficients of the generator polynomial of BIP 173 below x^6, doubled `n` times. */
  function Coefficients(n: nat): seq<nat>
    ensures |Coefficients(n)| == 6
  {
    if n == 0 then [29, 22, 20, 21, 29, 18]
    else var c := Coefficients(n - 1); [Twice(c[0]), Twice(c[1]), Twice(c[2]), Twice(c[3]), Twice(c[4]), Twice(c[5])]
  }

  /** The five words are that polynomial times 1, 2, 4, 8 and 16. */
  lemma GeneratorIsPolynomial(n: nat)
    requires n < 5
    ensures |GENERATOR| == 5 && GENERATOR[n] == Read(0, Coefficients(n), 5)
  {
    CoefficientsAre();
    match n {
      case 0 => ReadSix(29, 22, 20, 21, 29, 18);
      case 1 => ReadSix(19, 5, 1, 3, 19, 13);
      case 2 => ReadSix(15, 10, 2, 6, 15, 26);
      case 3 => ReadSix(30, 20, 4, 12, 30, 29);
      case _ => ReadSix(21, 1, 8, 24, 21, 19);
    }
  }

  lemma TwiceAre()
    ensures Twice(29) == 19 && Twice(22) == 5 && Twice(20) == 1 && Twice(21) == 3 && Twice(18) == 13
    ensures Twice(19) == 15 && Twice(26) == 29 && Twice(30) == 21
  {
  }

  lemma CoefficientsAre()
    ensures Coefficients(0) == [29, 22, 20, 21, 29, 18] && Coefficients(1) == [19, 5, 1, 3, 19, 13]
    ensures Coefficients(2) == [15, 10, 2, 6, 15, 26] && Coefficients(3) == [30, 20, 4, 12, 30, 29]
    ensures Coefficients(4) == [21, 1, 8, 24, 21, 19]
  {
    TwiceAre();
    CoefficientsNext(0, 29, 22, 20, 21, 29, 18);
    CoefficientsNext(1, 19, 5, 1, 3, 19, 13);
    CoefficientsNext(2, 15, 10, 2, 6, 15, 26);
    CoefficientsNext(3, 30, 20, 4, 12, 30, 29);
  }

  lemma CoefficientsNext(n: nat, a: nat, b: nat, c: nat, d: nat, e: nat, f: nat)
    requires Coefficients(n) == [a, b, c, d, e, f]
    ensures Coefficients(n + 1) == [Twice(a), Twice(b), Twice(c), Twice(d), Twice(e), Twice(f)]
  {
  }

  lemma ShiftFive(x: nat)
    ensures Shl(x, 5) == 32 * x
  {
    assert Shl(x, 1) == 2 * Shl(x, 0) && Shl(x, 2) == 2 * Shl(x, 1) && Shl(x, 3) == 2 * Shl(x, 2);
    assert Shl(x, 4) == 2 * Shl(x, 3) && Shl(x, 5) == 2 * Shl(x, 4);
  }

  lemma ReadNext(x: nat, d: nat, rest: seq<nat>)
    ensures Read(x, [d] + rest, 5) == Read(32 * x + d, rest, 5)
  {
    ShiftFive(x);
    assert ([d] + rest)[1..] == rest;
  }

  lemma ReadThree(x: nat, a: nat, b: nat, c: nat, rest: seq<nat>)
    ensures Read(x, [a, b, c] + rest, 5) == Read(((x * 32 + a) * 32 + b) * 32 + c, rest, 5)
  {
    var y := x * 32 + a;
    assert [a, b, c] + rest == [a] + ([b] + ([c] + rest));
    ReadNext(x, a, [b] + ([c] + rest));
    ReadNext(y, b, [c] + rest);
    ReadNext(y * 32 + b, c, rest);
  }

  lemma ReadSix(a: nat, b: nat, c: nat, d: nat, e: nat, f: nat)
    ensures Read(0, [a, b, c, d, e, f], 5) == ((((a * 32 + b) * 32 + c) * 32 + d) * 32 + e) * 32 + f
  {
    assert [a, b, c, d, e, f] == [a, b, c] + ([d, e, f] + []);
    ReadThree(0, a, b, c, [d, e, f] + []);
    ReadThree((a * 32 + b) * 32 + c, d, e, f, []);
  }

  lemma GeneratorFits()
    ensures forall i :: 0 <= i < |GENERATOR| ==> Fits(GENERATOR[i], 30)
  {
    assert Shl(1, 5) == 32 && Shl(1, 10) == 1024 && Shl(1, 15) == 0x8000 && Shl(1, 20) == 0x10_0000;
    assert Shl(1, 25) == 0x200_0000 && Shl(1, 30) == 0x4000_0000;
    forall i | 0 <= i < |GENERATOR| ensures Fits(GENERATOR[i], 30) {
      FitsBelow(GENERATOR[i], 30);
    }
  }

  lemma PushFits(chk: nat, v: nat)
    requires Fits(v, 30)
    ensures Fits(Push(chk, v), 30)
  {
    GeneratorFits();
    PushWithFits(GENERATOR, chk, v);
  }

  lemma PushWithFits(gs: seq<nat>, chk: nat, v: nat)
    requires Fits(v, 30) && forall i :: 0 <= i < |gs| ==> Fits(gs[i], 30)
    ensures Fits(PushWith(gs, chk, v), 30)
  {
    var high := Low(chk, 25);
    LowFits(chk, 25);
    ShrZero(5);
    FillShr(high, 0, 5);
    ShrShr(Shl(high, 5), 5, 25);
    FeedbackFits(gs, Carry(chk), |gs|);
    XorFits(Shl(high, 5), v, 30);
    XorFits(Xor(Shl(high, 5), v), Feedback(gs, Carry(chk), |gs|), 30);
  }

  // ---- The checksum ----

  const ZEROS: seq<nat> := [0, 0, 0, 0, 0, 0]

  function HrpExpand(hrp: string): seq<nat> {
    seq(|hrp|, i requires 0 <= i < |hrp| => Shr(hrp[i] as nat, 5)) + [0]
    + seq(|hrp|, i requires 0 <= i < |hrp| => Low(hrp[i] as nat, 5))
  }

  /** The expansion holds each character of the prefix in two parts, the high ones before a zero and the
      low ones, of five bits, behind it. */
  lemma HrpExpandSplits(hrp: string, i: nat)
    requires i < |hrp|
    ensures var e := HrpExpand(hrp);
            && |e| == 2 * |hrp| + 1 && e[|hrp|] == 0
            && e[|hrp| + 1 + i] < 32 && 32 * e[i] + e[|hrp| + 1 + i] == hrp[i] as nat
  {
    var c := hrp[i] as nat;
    SplitAt(c, 5);
    LowFits(c, 5);
    FitsBelow(Low(c, 5), 5);
    ShiftFive(1);
    ShiftFive(Shr(c, 5));
  }

  function CreateChecksum(hrp: string, data: seq<nat>): seq<nat> {
    Unpack(Xor(PushAll(1, HrpExpand(hrp) + data + ZEROS), 1), 6)
  }

  /** Appending six symbols to a register adds the number they spell to what six zeros give. */
  lemma SixSymbols(state: nat, symbols: seq<nat>)
    requires Digits(symbols, 5) && |symbols| == 6
    ensures PushAll(state, symbols) == Xor(PushAll(state, ZEROS), Read(0, symbols, 5))
  {
    forall i | 0 <= i < 6 ensures symbols[i] == Xor(ZEROS[i], symbols[i]) {
      XorZero(symbols[i]);
    }
    XorZero(state);
    PushAllLinear(state, 0, ZEROS, symbols, symbols);
    PushAllPacks(0, 0, symbols);
  }

  lemma ZerosFit(state: nat)
    ensures Fits(PushAll(state, ZEROS), 30)
  {
    PushAllConcat(state, ZEROS[..5], [0]);
    assert ZEROS[..5] + [0] == ZEROS;
    ShrZero(30);
    PushFits(PushAll(state, ZEROS[..5]), 0);
  }

  /** In any register state, six five-bit symbols lead to 1 if and only if they unpack the
      remainder left by six zeros, with its lowest bit flipped. */
  lemma SixSymbolsClose(state: nat, symbols: seq<nat>)
    requires Digits(symbols, 5) && |symbols| == 6
    ensures PushAll(state, symbols) == 1 <==> symbols == Unpack(Xor(PushAll(state, ZEROS), 1), 6)
  {
    var rest := PushAll(state, ZEROS);
    var p := Xor(rest, 1);
    assert Fits(p, 30) by {
      ZerosFit(state);
      FitsMore(1, 1, 30);
      XorFits(rest, 1, 30);
    }
    SixSymbols(state, symbols);
    XorUndo(rest, Read(0, symbols, 5));
    ReadUnpack(p, 6);
    if Read(0, symbols, 5) == p {
      ReadInjective(0, 0, symbols, Unpack(p, 6), 5);
    }
  }

  /** Six five-bit symbols close the checksum if and only if they are the ones computed:
      the polynomial of prefix, data and checksum is 1, and no other six symbols make it so. */
  lemma ChecksumCloses(hrp: string, data: seq<nat>, symbols: seq<nat>)
    requires Digits(symbols, 5) && |symbols| == 6
    ensures PushAll(1, HrpExpand(hrp) + data + symbols) == 1 <==> symbols == CreateChecksum(hrp, data)
  {
    var body := HrpExpand(hrp) + data;
    PushAllConcat(1, body, ZEROS);
    PushAllConcat(1, body, symbols);
    SixSymbolsClose(PushAll(1, body), symbols);
  }

  lemma ChecksumShape(hrp: string, data: seq<nat>)
    ensures Digits(CreateChecksum(hrp, data), 5) && |CreateChecksum(hrp, data)| == 6
    ensures PushAll(1, HrpExpand(hrp) + data + CreateChecksum(hrp, data)) == 1
  {
    ReadUnpack(Xor(PushAll(1, HrpExpand(hrp) + data + ZEROS), 1), 6);
    ChecksumCloses(hrp, data, CreateChecksum(hrp, data));
  }

  lemma XorUndo(a: nat, b: nat)
    ensures Xor(a, b) == 1 <==> b == Xor(a, 1)
  {
    XorAssociates(a, a, b);
    XorAssociates(a, a, 1);
    XorSelf(a);
    XorZero(b);
    XorZero(1);
  }
}
