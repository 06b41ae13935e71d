/** Regrouping of bits, and the account addresses built on it
    (`convertbits`, `bech32_encode`, `addr_from_pubkey` of `indexer/address_utils.py`). */
module Regroup {
  import opened Bits
  import opened Bech32
  import opened Wrappers

  /** `out` regroups `data` with zero bits appended up to a whole number of output digits. */
  ghost predicate Padded(data: seq<nat>, from: nat, to: nat, out: seq<nat>) {
    && Digits(out, to)
    && var pad := |out| * to - |data| * from;
       0 <= pad < to && Read(0, out, to) == Shl(Read(0, data, from), pad)
  }

  /** Without padding: the bits left over after the last whole output digit must be fewer than
      an input digit and all zero, and then `out` is the number without them. */
  ghost predicate Unpadded(data: seq<nat>, from: nat, to: nat, out: Option<seq<nat>>)
    requires to > 0
  {
    var rest := |data| * from % to;
    var number := Read(0, data, from);
    if rest >= from || Low(number, rest) != 0 then out == None
    else
      && out.Some? && Digits(out.value, to)
      && |out.value| * to == |data| * from - rest
      && Shl(Read(0, out.value, to), rest) == number
  }

  /** State of the conversion: `ret` spells the bits of `acc` above its lowest `bits`. */
  ghost predicate Emitted(acc: nat, bits: nat, total: nat, to: nat, ret: seq<nat>) {
    Digits(ret, to) && |ret| * to + bits == total && Read(0, ret, to) == Shr(acc, bits)
  }

  lemma EmitDigit(acc: nat, bits: nat, total: nat, to: nat, ret: seq<nat>)
    requires Emitted(acc, bits, total, to, ret) && bits >= to
    ensures Emitted(acc, bits - to, total, to, ret + [Low(Shr(acc, bits - to), to)])
  {
    var high := Shr(acc, bits - to);
    ShrShr(acc, bits - to, to);
    SplitAt(high, to);
    LowFits(high, to);
    ReadLast(0, ret, Low(high, to), to);
    assert (|ret| + 1) * to == |ret| * to + to;
  }

  lemma TakeDigit(acc: nat, bits: nat, total: nat, to: nat, ret: seq<nat>, d: nat, from: nat)
    requires Emitted(acc, bits, total, to, ret) && Fits(d, from)
    ensures Emitted(Shl(acc, from) + d, bits + from, total + from, to, ret)
  {
    FillShr(acc, d, from);
    ShrShr(Shl(acc, from) + d, from, bits);
  }

  lemma PadDigit(acc: nat, bits: nat, total: nat, to: nat, ret: seq<nat>)
    requires Emitted(acc, bits, total, to, ret) && bits <= to
    ensures Emitted(Shl(acc, to - bits), 0, total + to - bits, to, ret + [Low(Shl(acc, to - bits), to)])
  {
    ShlShr(acc, to - bits, bits);
    EmitDigit(Shl(acc, to - bits), to, total + to - bits, to, ret);
  }

  method ConvertBits(data: seq<nat>, from: nat, to: nat, pad: bool) returns (out: Option<seq<nat>>)
    requires from > 0 && to > 0 && Digits(data, from)
    ensures pad ==> out.Some? && Padded(data, from, to, out.value)
    ensures !pad ==> Unpadded(data, from, to, out)
  {
    var acc, bits, ret := 0, 0, [];
    for n := 0 to |data|
      invariant acc == Read(0, data[..n], from)
      invariant 0 <= bits < to && Emitted(acc, bits, n * from, to, ret)
    {
      ReadLast(0, data[..n], data[n], from);
      assert data[..n + 1] == data[..n] + [data[n]];
      TakeDigit(acc, bits, n * from, to, ret, data[n], from);
      assert n * from + from == (n + 1) * from;
      acc, bits := Shl(acc, from) + data[n], bits + from;
      while bits >= to
        invariant 0 <= bits && Emitted(acc, bits, (n + 1) * from, to, ret)
      {
        EmitDigit(acc, bits, (n + 1) * from, to, ret);
        bits := bits - to;
        ret := ret + [Low(Shr(acc, bits), to)];
      }
    }
    assert data[..|data|] == data;
    var tail := Low(Shl(acc, to - bits), to);
    if pad && bits > 0 {
      PadDigit(acc, bits, |data| * from, to, ret);
      return Some(ret + [tail]);
    }
    RemainderIs(|data| * from, to, |ret|, bits);
    LowShl(acc, to - bits, bits);
    ShlPositive(Low(acc, bits), to - bits);
    if bits >= from || tail != 0 {
      return None;
    }
    SplitAt(acc, bits);
    return Some(ret);
  }

  /** Bits left over that make up a whole input digit, or are not all zero, are refused; nothing else is. */
  lemma UnpaddedRefuses(data: seq<nat>, from: nat, to: nat, out: Option<seq<nat>>)
    requires to > 0 && Unpadded(data, from, to, out)
    ensures out == None <==> |data| * from % to >= from || Low(Read(0, data, from), |data| * from % to) != 0
  {
  }

  lemma MultipleGrows(e: int, d: int)
    requires d >= 0
    ensures e >= 1 ==> e * d >= d
    ensures e <= -1 ==> e * d <= -d
  {
  }

  lemma RemainderIs(total: nat, d: nat, q: nat, r: nat)
    requires r < d && total == q * d + r
    ensures total % d == r
  {
    var e := total / d - q;
    assert (total / d) * d + total % d == total;
    assert (total / d) * d == q * d + e * d;
    MultipleGrows(e, d);
  }

  /** Unpadded regrouping undoes padded regrouping exactly when the padding is narrower than an
      input digit, which is always so when the output digits are no wider than the input digits. */
  lemma RoundTrip(data: seq<nat>, from: nat, to: nat, mid: seq<nat>, back: Option<seq<nat>>)
    requires from > 0 && to > 0 && Digits(data, from)
    requires Padded(data, from, to, mid)
    requires Unpadded(mid, to, from, back)
    ensures back == Some(data) <==> |mid| * to - |data| * from < from
    ensures to <= from ==> back == Some(data)
  {
    var pad := |mid| * to - |data| * from;
    if pad < from {
      var number := Read(0, data, from);
      RemainderIs(|mid| * to, from, |data|, pad);
      assert Low(Shl(number, pad), pad) == 0 by { LowShl(number, pad, 0); ShlPositive(0, pad); }
      SameLength(back.value, data, from);
      ShlInjective(Read(0, back.value, from), number, pad);
      ReadInjective(0, 0, back.value, data, from);
    }
  }

  lemma SameLength(a: seq<nat>, b: seq<nat>, k: nat)
    requires k > 0 && |a| * k == |b| * k
    ensures |a| == |b|
  {
    var e := |a| - |b|;
    assert e * k == 0;
    MultipleGrows(e, k);
  }

  lemma {:induction false} ShlInjective(a: nat, b: nat, k: nat)
    requires Shl(a, k) == Shl(b, k)
    ensures a == b
  {
    if k > 0 { ShlInjective(a, b, k - 1); }
  }

  // ---- Addresses ----

  const CHARSET := "qpzry9x8gf2tvdw0s3jn54khce6mua7l"

  ghost predicate IsSymbols(digits: seq<nat>) {
    forall i :: 0 <= i < |digits| ==> digits[i] < |CHARSET|
  }

  function Symbols(digits: seq<nat>): string
    requires IsSymbols(digits)
  {
    seq(|digits|, i requires 0 <= i < |digits| => CHARSET[digits[i]])
  }

  function Encode(hrp: string, data: seq<nat>): string
    requires IsSymbols(data + CreateChecksum(hrp, data))
  {
    hrp + "1" + Symbols(data + CreateChecksum(hrp, data))
  }

  /** Inverse of the character table. */
  function Value(c: char): nat {
    match c
    case 'q' => 0 case 'p' => 1 case 'z' => 2 case 'r' => 3 case 'y' => 4 case '9' => 5 case 'x' => 6 case '8' => 7
    case 'g' => 8 case 'f' => 9 case '2' => 10 case 't' => 11 case 'v' => 12 case 'd' => 13 case 'w' => 14 case '0' => 15
    case 's' => 16 case '3' => 17 case 'j' => 18 case 'n' => 19 case '5' => 20 case '4' => 21 case 'k' => 22 case 'h' => 23
    case 'c' => 24 case 'e' => 25 case '6' => 26 case 'm' => 27 case 'u' => 28 case 'a' => 29 case '7' => 30 case 'l' => 31
    case _ => 32
  }

  lemma ValueOfSymbol(d: nat)
    requires d < |CHARSET|
    ensures Value(CHARSET[d]) == d
  {
  }

  lemma DigitsAreSymbols(digits: seq<nat>)
    ensures Digits(digits, 5) <==> IsSymbols(digits)
  {
    forall i | 0 <= i < |digits| ensures Fits(digits[i], 5) <==> digits[i] < 32 {
      FitsBelow(digits[i], 5);
    }
  }

  lemma EncodableWithChecksum(hrp: string, data: seq<nat>)
    requires Digits(data, 5)
    ensures IsSymbols(data + CreateChecksum(hrp, data)) && |CreateChecksum(hrp, data)| == 6
  {
    ChecksumShape(hrp, data);
    DigitsAreSymbols(data + CreateChecksum(hrp, data));
  }

  ghost predicate EncodesAs(hrp: string, digest: seq<nat>, data: seq<nat>, addr: string) {
    Padded(digest, 8, 5, data) && IsSymbols(data + CreateChecksum(hrp, data)) && addr == Encode(hrp, data)
  }

  /** `addr` is the account address of a digest: its bits regrouped into symbols, checksummed. */
  ghost predicate IsAddress(hrp: string, digest: seq<nat>, addr: string) {
    exists data :: EncodesAs(hrp, digest, data, addr)
  }

  /** The pattern the indexer demands of an address: `mirage1` and 38 characters of the table. */
  ghost predicate MirageAddress(addr: string) {
    |addr| == 45 && addr[..7] == "mirage1" && FromCharset(addr[7..])
  }

  ghost predicate FromCharset(s: string) {
    forall i :: 0 <= i < |s| ==> Value(s[i]) < 32
  }

  method AddressOfDigest(hrp: string, digest: seq<nat>) returns (addr: string)
    requires Digits(digest, 8)
    ensures IsAddress(hrp, digest, addr)
  {
    var data := ConvertBits(digest, 8, 5, true);
    EncodableWithChecksum(hrp, data.value);
    addr := Encode(hrp, data.value);
    assert EncodesAs(hrp, digest, data.value, addr);
  }

  /** Every 20-byte digest has an address of the demanded form. */
  lemma AddressMatchesPattern(digest: seq<nat>, addr: string)
    requires |digest| == 20 && IsAddress("mirage", digest, addr)
    ensures MirageAddress(addr)
  {
    var data :| EncodesAs("mirage", digest, data, addr);
    EncodableWithChecksum("mirage", data);
    var all := data + CreateChecksum("mirage", data);
    SymbolsFromCharset(all);
    assert "mirage" + "1" == "mirage1";
    assert addr[..7] == "mirage1" && addr[7..] == Symbols(all);
  }

  lemma SymbolsFromCharset(all: seq<nat>)
    requires IsSymbols(all)
    ensures FromCharset(Symbols(all))
  {
    forall i | 0 <= i < |all| ensures Value(Symbols(all)[i]) < 32 {
      ValueOfSymbol(all[i]);
    }
  }

  lemma EncodeInjective(hrp: string, a: seq<nat>, b: seq<nat>)
    requires |a| == |b|
    requires IsSymbols(a + CreateChecksum(hrp, a)) && IsSymbols(b + CreateChecksum(hrp, b))
    requires Encode(hrp, a) == Encode(hrp, b)
    ensures a == b
  {
    var u, v := a + CreateChecksum(hrp, a), b + CreateChecksum(hrp, b);
    assert Symbols(u) == Encode(hrp, a)[|hrp| + 1..] == Encode(hrp, b)[|hrp| + 1..] == Symbols(v);
    forall i | 0 <= i < |a| ensures a[i] == b[i] {
      assert CHARSET[u[i]] == Symbols(u)[i] == Symbols(v)[i] == CHARSET[v[i]];
      ValueOfSymbol(u[i]);
      ValueOfSymbol(v[i]);
    }
  }

  /** Two digests of the same length never share an address. */
  lemma AddressInjective(hrp: string, d1: seq<nat>, d2: seq<nat>, addr: string)
    requires Digits(d1, 8) && Digits(d2, 8) && |d1| == |d2|
    requires IsAddress(hrp, d1, addr) && IsAddress(hrp, d2, addr)
    ensures d1 == d2
  {
    var a :| EncodesAs(hrp, d1, a, addr);
    var b :| EncodesAs(hrp, d2, b, addr);
    EncodeInjective(hrp, a, b);
    PaddedInjective(d1, d2, a, 8, 5);
  }

  lemma PaddedInjective(a: seq<nat>, b: seq<nat>, mid: seq<nat>, from: nat, to: nat)
    requires Digits(a, from) && Digits(b, from) && |a| == |b|
    requires Padded(a, from, to, mid) && Padded(b, from, to, mid)
    ensures a == b
  {
    ShlInjective(Read(0, a, from), Read(0, b, from), |mid| * to - |a| * from);
    ReadInjective(0, 0, a, b, from);
  }
}
