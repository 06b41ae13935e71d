/** The hand-written Protocol Buffers decoder of `indexer/message_processor.py`
    (Protocol Buffers Encoding guide, "Base 128 Varints" and "Message Structure"), proved to
    accept exactly the byte strings of a grammar and to return what the grammar assigns. */
module Wire {
  import opened Wrappers

  type byte = b: int | 0 <= b < 256

  /** A decoded scalar: a number, or raw bytes. */
  datatype Value = Int(n: nat) | Bytes(b: seq<byte>)

  datatype Record = Record(field: nat, value: Value)

  // ---- Grammar, by positions in a byte string ----

  /** One to ten bytes, of which exactly the last has its high bit clear. */
  ghost predicate VarintAt(data: seq<byte>, i: nat, j: nat) {
    && i < j <= |data| && j - i <= 10 && data[j - 1] < 128
    && forall n :: i <= n < j - 1 ==> data[n] >= 128
  }

  /** Seven bits per byte, least significant first. */
  function VarintValue(s: seq<byte>): nat {
    if s == [] then 0 else s[0] % 128 + 128 * VarintValue(s[1..])
  }

  /** A length up to `k`, and as many bytes behind it up to `j`. */
  ghost predicate ChunkAt(data: seq<byte>, i: nat, k: nat, j: nat, v: Value) {
    && VarintAt(data, i, k) && k <= j <= |data|
    && VarintValue(data[i..k]) == j - k && v == Bytes(data[k..j])
  }

  ghost predicate PayloadAt(data: seq<byte>, i: nat, j: nat, wire: nat, v: Value) {
    match wire
    case 0 => VarintAt(data, i, j) && v == Int(VarintValue(data[i..j]))
    case 1 => i + 8 == j <= |data| && v == Bytes(data[i..j])
    case 2 => exists k: nat :: ChunkAt(data, i, k, j, v)
    case 5 => i + 4 == j <= |data| && v == Bytes(data[i..j])
    case _ => false
  }

  /** A key up to `k` with a non-zero field number, and its payload up to `j`. */
  ghost predicate KeyedAt(data: seq<byte>, i: nat, k: nat, j: nat, r: Record) {
    && VarintAt(data, i, k)
    && r.field == VarintValue(data[i..k]) / 8 > 0
    && PayloadAt(data, k, j, VarintValue(data[i..k]) % 8, r.value)
  }

  ghost predicate RecordAt(data: seq<byte>, i: nat, j: nat, r: Record) {
    exists k: nat :: KeyedAt(data, i, k, j, r)
  }

  /** The records lie end to end from position 0, the `n`-th of them from `cuts[n]` on. */
  ghost predicate Cut(data: seq<byte>, rs: seq<Record>, cuts: seq<nat>) {
    && |cuts| == |rs| + 1 && cuts[0] == 0
    && forall n {:trigger rs[n]} :: 0 <= n < |rs| ==> RecordAt(data, cuts[n], cuts[n + 1], rs[n])
  }

  /** The bytes are exactly these records. */
  ghost predicate IsMessage(data: seq<byte>, rs: seq<Record>) {
    exists cuts :: Cut(data, rs, cuts) && cuts[|rs|] == |data|
  }

  /** Values per field number, continuing `fields`, in the order in which they appear. */
  function Grouped(fields: map<nat, seq<Value>>, rs: seq<Record>): map<nat, seq<Value>>
    decreases |rs|
  {
    if rs == [] then fields else Grouped(Appended(fields, rs[0]), rs[1..])
  }

  function Appended(fields: map<nat, seq<Value>>, r: Record): map<nat, seq<Value>> {
    fields[r.field := (if r.field in fields then fields[r.field] else []) + [r.value]]
  }

  // ---- The grammar is unambiguous ----

  lemma PayloadUnique(data: seq<byte>, i: nat, j: nat, k: nat, wire: nat, p: Value, q: Value)
    requires PayloadAt(data, i, j, wire, p) && PayloadAt(data, i, k, wire, q)
    ensures j == k && p == q
  {
    if wire == 2 {
      var a: nat :| ChunkAt(data, i, a, j, p);
      var b: nat :| ChunkAt(data, i, b, k, q);
      assert a == b;
    }
  }

  lemma RecordUnique(data: seq<byte>, i: nat, j: nat, k: nat, p: Record, q: Record)
    requires RecordAt(data, i, j, p) && RecordAt(data, i, k, q)
    ensures j == k && p == q
  {
    var a: nat :| KeyedAt(data, i, a, j, p);
    var b: nat :| KeyedAt(data, i, b, k, q);
    assert a == b;
    PayloadUnique(data, a, j, k, VarintValue(data[i..a]) % 8, p.value, q.value);
  }

  lemma RecordInside(data: seq<byte>, i: nat, j: nat, r: Record)
    requires RecordAt(data, i, j, r)
    ensures i < j <= |data|
  {
  }

  /** Two readings agree as far as both go. */
  lemma {:induction false} CutUnique(data: seq<byte>, ps: seq<Record>, a: seq<nat>, qs: seq<Record>, b: seq<nat>, n: nat)
    requires Cut(data, ps, a) && Cut(data, qs, b) && n <= |ps| && n <= |qs|
    ensures a[n] == b[n] && ps[..n] == qs[..n]
  {
    if n > 0 {
      CutUnique(data, ps, a, qs, b, n - 1);
      RecordUnique(data, a[n - 1], a[n], b[n], ps[n - 1], qs[n - 1]);
      assert ps[..n] == ps[..n - 1] + [ps[n - 1]] && qs[..n] == qs[..n - 1] + [qs[n - 1]];
    }
  }

  /** A reading of the whole goes at least as far as any partial reading. */
  lemma PartialReading(data: seq<byte>, ps: seq<Record>, a: seq<nat>, qs: seq<Record>, b: seq<nat>)
    requires Cut(data, ps, a) && Cut(data, qs, b) && b[|qs|] == |data|
    ensures |ps| <= |qs| && a[|ps|] == b[|ps|] && ps == qs[..|ps|]
  {
    if |qs| < |ps| {
      CutUnique(data, ps, a, qs, b, |qs|);
      RecordInside(data, a[|qs|], a[|qs| + 1], ps[|qs|]);
      assert false;
    }
    CutUnique(data, ps, a, qs, b, |ps|);
    assert ps[..|ps|] == ps;
  }

  /** A byte string spells at most one list of records. */
  lemma MessageUnique(data: seq<byte>, ps: seq<Record>, qs: seq<Record>)
    requires IsMessage(data, ps) && IsMessage(data, qs)
    ensures ps == qs
  {
    var a :| Cut(data, ps, a) && a[|ps|] == |data|;
    var b :| Cut(data, qs, b) && b[|qs|] == |data|;
    PartialReading(data, ps, a, qs, b);
    PartialReading(data, qs, b, ps, a);
  }

  // ---- Fields keep the order of their values ----

  /** The values of one field, in order of appearance. */
  function ValuesOf(rs: seq<Record>, field: nat): seq<Value> {
    if rs == [] then []
    else (if rs[0].field == field then [rs[0].value] else []) + ValuesOf(rs[1..], field)
  }

  /** The values of a field are those of its records, one after the other. */
  lemma {:induction false} ValuesInOrder(a: seq<Record>, b: seq<Record>, field: nat)
    ensures ValuesOf(a + b, field) == ValuesOf(a, field) + ValuesOf(b, field)
  {
    if a == [] {
      assert a + b == b;
    } else {
      var c := a + b;
      assert c[0] == a[0] && c[1..] == a[1..] + b;
      ValuesInOrder(a[1..], b, field);
    }
  }

  lemma ValueOfOne(r: Record, field: nat)
    ensures ValuesOf([r], field) == if r.field == field then [r.value] else []
  {
    assert [r][1..] == [] && ValuesOf([], field) == [];
  }

  lemma {:induction false} GroupedByField(fields: map<nat, seq<Value>>, rs: seq<Record>, field: nat)
    ensures var g := Grouped(fields, rs);
            && (field in g <==> field in fields || ValuesOf(rs, field) != [])
            && (field in g ==> g[field] == (if field in fields then fields[field] else []) + ValuesOf(rs, field))
    decreases |rs|
  {
    if rs != [] {
      GroupedByField(Appended(fields, rs[0]), rs[1..], field);
    }
  }

  lemma {:induction false} GroupedAppend(fields: map<nat, seq<Value>>, rs: seq<Record>, r: Record)
    ensures Grouped(fields, rs + [r]) == Appended(Grouped(fields, rs), r)
    decreases |rs|
  {
    if rs == [] {
      assert (rs + [r])[1..] == [];
    } else {
      assert (rs + [r])[1..] == rs[1..] + [r];
      GroupedAppend(Appended(fields, rs[0]), rs[1..], r);
    }
  }

  // ---- Reading a varint ----

  function Scale(n: nat): nat {
    if n == 0 then 1 else 128 * Scale(n - 1)
  }

  lemma {:induction false} VarintAppend(s: seq<byte>, b: byte)
    ensures VarintValue(s + [b]) == VarintValue(s) + Scale(|s|) * (b % 128)
  {
    var d := b % 128;
    if s == [] {
      assert s + [b] == [b] && [b][1..] == [];
    } else {
      var n := |s| - 1;
      assert (s + [b])[1..] == s[1..] + [b];
      VarintAppend(s[1..], b);
      assert (128 * Scale(n)) * d == 128 * (Scale(n) * d);
    }
  }

  /** Ten bytes that all go on are no varint, whatever follows. */
  lemma LongVarintRefused(data: seq<byte>, i: nat, j: nat)
    requires i + 10 <= |data| && forall n :: i <= n < i + 10 ==> data[n] >= 128
    ensures !VarintAt(data, i, j)
  {
    if j <= i + 10 && i < j { assert data[j - 1] >= 128; }
  }

  /** The example of the Encoding guide: 96 01 in hexadecimal is 150. */
  lemma VarintExample()
    ensures VarintAt([0x96, 0x01], 0, 2) && VarintValue([0x96, 0x01]) == 150
  {
    assert [0x96, 0x01][1..] == [0x01] && [0x01][1..] == [];
  }

  method ReadVarint(data: seq<byte>, offset: nat) returns (r: Result<(nat, nat)>)
    requires offset <= |data|
    ensures r.Ok? ==> VarintAt(data, offset, r.value.1) && r.value.0 == VarintValue(data[offset..r.value.1])
    ensures r.Err? ==> forall end: nat :: !VarintAt(data, offset, end)
  {
    var value: nat, scale: nat := 0, 1;
    for index := offset to if |data| < offset + 10 then |data| else offset + 10
      invariant scale == Scale(index - offset)
      invariant value == VarintValue(data[offset..index])
      invariant forall i :: offset <= i < index ==> data[i] >= 128
    {
      var b := data[index];
      VarintAppend(data[offset..index], b);
      assert data[offset..index + 1] == data[offset..index] + [b];
      value := value + scale * (b % 128);
      if b < 128 {
        return Ok((value, index + 1));
      }
      scale := 128 * scale;
    }
    return Err("malformed varint");
  }

  /** What no record begins with: a key of field zero, or of a wire type other than 0, 1, 2 and 5. */
  lemma BadKeyRefused(data: seq<byte>, i: nat, k: nat, j: nat, r: Record)
    requires VarintAt(data, i, k)
    requires VarintValue(data[i..k]) < 8 || VarintValue(data[i..k]) % 8 in {3, 4, 6, 7}
    ensures !RecordAt(data, i, j, r)
  {
    forall l: nat ensures !KeyedAt(data, i, l, j, r) {
      if VarintAt(data, i, l) { SameVarint(data, i, k, l); }
    }
  }

  lemma SameVarint(data: seq<byte>, i: nat, j: nat, k: nat)
    requires VarintAt(data, i, j) && VarintAt(data, i, k)
    ensures j == k
  {
  }

  // ---- Reading a record ----

  method ReadPayload(data: seq<byte>, offset: nat, wire: nat) returns (r: Result<(Value, nat)>)
    requires offset <= |data|
    ensures r.Ok? ==> PayloadAt(data, offset, r.value.1, wire, r.value.0)
    ensures r.Err? ==> forall end: nat, v :: !PayloadAt(data, offset, end, wire, v)
  {
    if wire == 0 {
      var n := ReadVarint(data, offset);
      if n.Err? { return Err(n.error); }
      return Ok((Int(n.value.0), n.value.1));
    } else if wire == 1 {
      if offset + 8 > |data| { return Err("truncated fixed64 field"); }
      return Ok((Bytes(data[offset..offset + 8]), offset + 8));
    } else if wire == 2 {
      var size := ReadVarint(data, offset);
      if size.Err? { return Err(size.error); }
      var from := size.value.1;
      var end := from + size.value.0;
      if size.value.0 > |data| - from { return Err("truncated length-delimited field"); }
      assert ChunkAt(data, offset, from, end, Bytes(data[from..end]));
      return Ok((Bytes(data[from..end]), end));
    } else if wire == 5 {
      if offset + 4 > |data| { return Err("truncated fixed32 field"); }
      return Ok((Bytes(data[offset..offset + 4]), offset + 4));
    } else {
      return Err("unsupported wire type");
    }
  }

  method ReadRecord(data: seq<byte>, offset: nat) returns (r: Result<(Record, nat)>)
    requires offset <= |data|
    ensures r.Ok? ==> offset < r.value.1 <= |data| && RecordAt(data, offset, r.value.1, r.value.0)
    ensures r.Err? ==> forall end: nat, rec :: !RecordAt(data, offset, end, rec)
  {
    var key := ReadVarint(data, offset);
    if key.Err? { return Err(key.error); }
    var (tag, from) := key.value;
    if tag / 8 == 0 { return Err("field zero"); }
    var payload := ReadPayload(data, from, tag % 8);
    if payload.Err? { return Err(payload.error); }
    var (value, end) := payload.value;
    assert KeyedAt(data, offset, from, end, Record(tag / 8, value));
    return Ok((Record(tag / 8, value), end));
  }

  // ---- The whole message ----

  /** The result is the grouping of the records the bytes spell, or an error if they spell none. */
  ghost predicate Decodes(data: seq<byte>, r: Result<map<nat, seq<Value>>>) {
    match r
    case Ok(fields) => exists rs :: IsMessage(data, rs) && fields == Grouped(map[], rs)
    case Err(_) => forall rs :: !IsMessage(data, rs)
  }

  method ScalarFields(data: seq<byte>) returns (r: Result<map<nat, seq<Value>>>)
    ensures Decodes(data, r)
  {
    var fields: map<nat, seq<Value>> := map[];
    var offset := 0;
    ghost var seen: seq<Record>, cuts: seq<nat> := [], [0];
    while offset < |data|
      invariant 0 <= offset <= |data|
      invariant Cut(data, seen, cuts) && cuts[|seen|] == offset
      invariant fields == Grouped(map[], seen)
    {
      var next := ReadRecord(data, offset);
      if next.Err? {
        StuckMeansMalformed(data, seen, cuts);
        return Err(next.error);
      }
      var (rec, end) := next.value;
      GroupedAppend(map[], seen, rec);
      seen, cuts := seen + [rec], cuts + [end];
      fields := Appended(fields, rec);
      offset := end;
    }
    return Ok(fields);
  }

  lemma StuckMeansMalformed(data: seq<byte>, seen: seq<Record>, cuts: seq<nat>)
    requires Cut(data, seen, cuts) && cuts[|seen|] < |data|
    requires forall end: nat, rec :: !RecordAt(data, cuts[|seen|], end, rec)
    ensures forall rs :: !IsMessage(data, rs)
  {
    forall rs ensures !IsMessage(data, rs) {
      if IsMessage(data, rs) {
        var end, rec := NextRecord(data, seen, cuts, rs);
        assert false;
      }
    }
  }

  lemma NextRecord(data: seq<byte>, seen: seq<Record>, cuts: seq<nat>, rs: seq<Record>) returns (end: nat, rec: Record)
    requires Cut(data, seen, cuts) && cuts[|seen|] < |data| && IsMessage(data, rs)
    ensures RecordAt(data, cuts[|seen|], end, rec)
  {
    var b :| Cut(data, rs, b) && b[|rs|] == |data|;
    PartialReading(data, seen, cuts, rs, b);
    end, rec := b[|seen| + 1], rs[|seen|];
  }

  // ---- Encoding, and the round trip ----

  function EncodeVarint(n: nat): (s: seq<byte>)
    ensures |s| > 0
  {
    if n < 128 then [n] else [n % 128 + 128] + EncodeVarint(n / 128)
  }

  lemma {:induction false} EncodeVarintShape(n: nat, k: nat)
    requires 0 < k <= 10 && n < Scale(k)
    ensures VarintAt(EncodeVarint(n), 0, |EncodeVarint(n)|)
    ensures |EncodeVarint(n)| <= k && VarintValue(EncodeVarint(n)) == n
  {
    var s := EncodeVarint(n);
    if n >= 128 {
      var t := EncodeVarint(n / 128);
      EncodeVarintShape(n / 128, k - 1);
      assert s[0] == n % 128 + 128 && s[1..] == t;
    } else {
      assert s[1..] == [];
    }
  }

  lemma VarintInside(data: seq<byte>, i: nat, j: nat, n: nat)
    requires n < Scale(10) && i <= j <= |data| && data[i..j] == EncodeVarint(n)
    ensures VarintAt(data, i, j) && VarintValue(data[i..j]) == n
  {
    EncodeVarintShape(n, 10);
    var s := data[i..j];
    assert forall m :: i <= m < j ==> data[m] == s[m - i];
  }

  lemma SliceSplit(data: seq<byte>, i: nat, j: nat, a: seq<byte>, b: seq<byte>)
    requires i <= j <= |data| && data[i..j] == a + b
    ensures i + |a| <= j && data[i..i + |a|] == a && data[i + |a|..j] == b
  {
    assert data[i..i + |a|] == data[i..j][..|a|];
    assert data[i + |a|..j] == data[i..j][|a|..];
  }

  /** A record together with the wire type it is to be written in. */
  datatype Item = Item(wire: nat, record: Record)

  predicate Writable(it: Item) {
    && it.record.field > 0 && it.record.field * 8 + it.wire < Scale(10)
    && match it.record.value {
         case Int(n) => it.wire == 0 && n < Scale(10)
         case Bytes(b) => (it.wire == 1 && |b| == 8) || (it.wire == 5 && |b| == 4) || (it.wire == 2 && |b| < Scale(10))
       }
  }

  function EncodePayload(it: Item): seq<byte> {
    match it.record.value
    case Int(n) => EncodeVarint(n)
    case Bytes(b) => if it.wire == 2 then EncodeVarint(|b|) + b else b
  }

  function EncodeItem(it: Item): seq<byte> {
    EncodeVarint(it.record.field * 8 + it.wire) + EncodePayload(it)
  }

  function EncodeItems(items: seq<Item>): seq<byte> {
    if items == [] then [] else EncodeItems(items[..|items| - 1]) + EncodeItem(items[|items| - 1])
  }

  function Records(items: seq<Item>): (rs: seq<Record>)
    ensures |rs| == |items| && forall n :: 0 <= n < |items| ==> rs[n] == items[n].record
  {
    if items == [] then [] else Records(items[..|items| - 1]) + [items[|items| - 1].record]
  }

  lemma PayloadInside(data: seq<byte>, i: nat, j: nat, it: Item)
    requires Writable(it) && i <= j <= |data| && data[i..j] == EncodePayload(it)
    ensures PayloadAt(data, i, j, it.wire, it.record.value)
  {
    match it.record.value {
      case Int(n) =>
        VarintInside(data, i, j, n);
      case Bytes(b) =>
        if it.wire == 2 {
          var size := EncodeVarint(|b|);
          SliceSplit(data, i, j, size, b);
          VarintInside(data, i, i + |size|, |b|);
          assert ChunkAt(data, i, i + |size|, j, Bytes(b));
        }
    }
  }

  lemma ItemInside(data: seq<byte>, i: nat, j: nat, it: Item)
    requires Writable(it) && i <= j <= |data| && data[i..j] == EncodeItem(it)
    ensures RecordAt(data, i, j, it.record)
  {
    var tag := it.record.field * 8 + it.wire;
    var key := EncodeVarint(tag);
    SliceSplit(data, i, j, key, EncodePayload(it));
    VarintInside(data, i, i + |key|, tag);
    PayloadInside(data, i + |key|, j, it);
    assert tag / 8 == it.record.field && tag % 8 == it.wire;
    assert KeyedAt(data, i, i + |key|, j, it.record);
  }

  lemma CutExtend(data: seq<byte>, rs: seq<Record>, cuts: seq<nat>, r: Record, end: nat)
    requires Cut(data, rs, cuts) && RecordAt(data, cuts[|rs|], end, r)
    ensures Cut(data, rs + [r], cuts + [end])
  {
  }

  lemma {:induction false} ItemsCut(data: seq<byte>, j: nat, items: seq<Item>) returns (cuts: seq<nat>)
    requires forall n :: 0 <= n < |items| ==> Writable(items[n])
    requires j <= |data| && data[0..j] == EncodeItems(items)
    ensures Cut(data, Records(items), cuts) && cuts[|items|] == j
  {
    if items == [] {
      cuts := [0];
    } else {
      var front, last := items[..|items| - 1], items[|items| - 1];
      var i := |EncodeItems(front)|;
      SliceSplit(data, 0, j, EncodeItems(front), EncodeItem(last));
      cuts := ItemsCut(data, i, front);
      ItemInside(data, i, j, last);
      CutExtend(data, Records(front), cuts, last.record, j);
      cuts := cuts + [j];
    }
  }

  /** Decoding what was encoded gives back the records, grouped by field in order. */
  lemma DecodeEncode(items: seq<Item>, r: Result<map<nat, seq<Value>>>)
    requires forall n :: 0 <= n < |items| ==> Writable(items[n])
    requires Decodes(EncodeItems(items), r)
    ensures r == Ok(Grouped(map[], Records(items)))
  {
    var data := EncodeItems(items);
    assert data[0..|data|] == data;
    var cuts := ItemsCut(data, |data|, items);
    assert IsMessage(data, Records(items));
    if r.Ok? {
      var rs :| IsMessage(data, rs) && r.value == Grouped(map[], rs);
      MessageUnique(data, rs, Records(items));
    }
  }

  // ---- Repeated numbers, packed or not ----

  /** The bytes are exactly the varints of these numbers. */
  ghost predicate PackedCut(b: seq<byte>, xs: seq<nat>, cuts: seq<nat>) {
    && |cuts| == |xs| + 1 && cuts[0] == 0
    && forall n :: 0 <= n < |xs| ==> PackedAt(b, xs, cuts, n)
  }

  ghost predicate PackedAt(b: seq<byte>, xs: seq<nat>, cuts: seq<nat>, n: nat)
    requires n < |xs| && |cuts| == |xs| + 1
  {
    VarintAt(b, cuts[n], cuts[n + 1]) && xs[n] == VarintValue(b[cuts[n]..cuts[n + 1]])
  }

  /** The numbers a stored value stands for: itself, or the varints packed in its bytes. */
  ghost predicate Spells(v: Value, xs: seq<nat>) {
    match v
    case Int(n) => xs == [n]
    case Bytes(b) => exists cuts :: PackedCut(b, xs, cuts) && cuts[|xs|] == |b|
  }

  /** The values stand for consecutive stretches of `xs`, the `n`-th of them from `cuts[n]` on. */
  ghost predicate Stretches(values: seq<Value>, xs: seq<nat>, cuts: seq<nat>) {
    && |cuts| == |values| + 1 && cuts[0] == 0
    && forall n :: 0 <= n < |values| ==> StretchAt(values, xs, cuts, n)
  }

  ghost predicate StretchAt(values: seq<Value>, xs: seq<nat>, cuts: seq<nat>, n: nat)
    requires n < |values| && |cuts| == |values| + 1
  {
    cuts[n] <= cuts[n + 1] <= |xs| && Spells(values[n], xs[cuts[n]..cuts[n + 1]])
  }

  /** The numbers of the values, in order, are `xs`. */
  ghost predicate Numbers(values: seq<Value>, xs: seq<nat>) {
    exists cuts :: Stretches(values, xs, cuts) && cuts[|values|] == |xs|
  }

  ghost predicate Flattens(values: seq<Value>, r: Result<seq<nat>>) {
    match r
    case Ok(out) => Numbers(values, out)
    case Err(_) => exists v :: v in values && forall xs :: !Spells(v, xs)
  }

  lemma StretchesNext(values: seq<Value>, xs: seq<nat>, cuts: seq<nat>, v: Value, part: seq<nat>)
    requires Stretches(values, xs, cuts) && cuts[|values|] == |xs| && Spells(v, part)
    ensures Stretches(values + [v], xs + part, cuts + [|xs| + |part|])
  {
    var vs, ys, ds := values + [v], xs + part, cuts + [|xs| + |part|];
    forall n | 0 <= n < |vs| ensures StretchAt(vs, ys, ds, n) {
      if n < |values| {
        assert StretchAt(values, xs, cuts, n);
        assert ys[ds[n]..ds[n + 1]] == xs[cuts[n]..cuts[n + 1]];
      } else {
        assert n == |values| && ds[n] == |xs| && ds[n + 1] == |ys|;
        assert ys[|xs|..|ys|] == part;
      }
    }
  }

  lemma {:induction false} PackedUnique(b: seq<byte>, xs: seq<nat>, c: seq<nat>, ys: seq<nat>, d: seq<nat>, n: nat)
    requires PackedCut(b, xs, c) && PackedCut(b, ys, d) && n <= |xs| && n <= |ys|
    ensures c[n] == d[n] && xs[..n] == ys[..n]
  {
    if n > 0 {
      PackedUnique(b, xs, c, ys, d, n - 1);
      assert PackedAt(b, xs, c, n - 1) && PackedAt(b, ys, d, n - 1);
      assert xs[n - 1] == ys[n - 1];
      assert xs[..n] == xs[..n - 1] + [xs[n - 1]] && ys[..n] == ys[..n - 1] + [ys[n - 1]];
    }
  }

  lemma PackedStep(b: seq<byte>, xs: seq<nat>, cuts: seq<nat>, n: nat)
    requires PackedCut(b, xs, cuts) && n < |xs|
    ensures VarintAt(b, cuts[n], cuts[n + 1])
  {
    assert PackedAt(b, xs, cuts, n);
  }

  lemma PackedPartial(b: seq<byte>, xs: seq<nat>, c: seq<nat>, ys: seq<nat>, d: seq<nat>)
    requires PackedCut(b, xs, c) && PackedCut(b, ys, d) && d[|ys|] == |b|
    ensures |xs| <= |ys| && c[|xs|] == d[|xs|] && xs == ys[..|xs|]
  {
    if |ys| < |xs| {
      PackedUnique(b, xs, c, ys, d, |ys|);
      PackedStep(b, xs, c, |ys|);
      assert false;
    }
    PackedUnique(b, xs, c, ys, d, |xs|);
    assert xs[..|xs|] == xs;
  }

  lemma SpellsUnique(v: Value, xs: seq<nat>, ys: seq<nat>)
    requires Spells(v, xs) && Spells(v, ys)
    ensures xs == ys
  {
    if v.Bytes? {
      var c :| PackedCut(v.b, xs, c) && c[|xs|] == |v.b|;
      var d :| PackedCut(v.b, ys, d) && d[|ys|] == |v.b|;
      PackedPartial(v.b, xs, c, ys, d);
      PackedPartial(v.b, ys, d, xs, c);
    }
  }

  lemma NextPacked(b: seq<byte>, xs: seq<nat>, cuts: seq<nat>, ys: seq<nat>) returns (end: nat)
    requires PackedCut(b, xs, cuts) && cuts[|xs|] < |b| && Spells(Bytes(b), ys)
    ensures VarintAt(b, cuts[|xs|], end)
  {
    var d :| PackedCut(b, ys, d) && d[|ys|] == |b|;
    PackedPartial(b, xs, cuts, ys, d);
    PackedStep(b, ys, d, |xs|);
    end := d[|xs| + 1];
  }

  lemma PackedExtend(b: seq<byte>, xs: seq<nat>, cuts: seq<nat>, x: nat, end: nat)
    requires PackedCut(b, xs, cuts) && VarintAt(b, cuts[|xs|], end) && x == VarintValue(b[cuts[|xs|]..end])
    ensures PackedCut(b, xs + [x], cuts + [end])
  {
    var ys, ds := xs + [x], cuts + [end];
    forall n | 0 <= n < |ys| ensures PackedAt(b, ys, ds, n) {
      if n < |xs| {
        assert PackedAt(b, xs, cuts, n);
      }
    }
  }

  method ReadPacked(b: seq<byte>) returns (r: Result<seq<nat>>)
    ensures r.Ok? ==> Spells(Bytes(b), r.value)
    ensures r.Err? ==> forall xs :: !Spells(Bytes(b), xs)
  {
    var out: seq<nat>, offset := [], 0;
    ghost var cuts: seq<nat> := [0];
    while offset < |b|
      invariant 0 <= offset <= |b|
      invariant PackedCut(b, out, cuts) && cuts[|out|] == offset
    {
      var item := ReadVarint(b, offset);
      if item.Err? {
        forall xs ensures !Spells(Bytes(b), xs) {
          if Spells(Bytes(b), xs) {
            var end := NextPacked(b, out, cuts, xs);
            assert false;
          }
        }
        return Err(item.error);
      }
      offset := item.value.1;
      PackedExtend(b, out, cuts, item.value.0, offset);
      out, cuts := out + [item.value.0], cuts + [offset];
    }
    return Ok(out);
  }

  method RepeatedVarints(fields: map<nat, seq<Value>>, field: nat) returns (r: Result<seq<nat>>)
    ensures Flattens(if field in fields then fields[field] else [], r)
  {
    var values := if field in fields then fields[field] else [];
    var out: seq<nat> := [];
    ghost var cuts: seq<nat> := [0];
    for n := 0 to |values|
      invariant Stretches(values[..n], out, cuts) && cuts[n] == |out|
    {
      var part;
      match values[n] {
        case Int(x) => part := [x];
        case Bytes(b) =>
          var p := ReadPacked(b);
          if p.Err? {
            assert values[n] in values;
            return Err(p.error);
          }
          part := p.value;
      }
      StretchesNext(values[..n], out, cuts, values[n], part);
      out, cuts := out + part, cuts + [|out| + |part|];
      assert values[..n + 1] == values[..n] + [values[n]];
    }
    assert values[..|values|] == values;
    return Ok(out);
  }

  lemma {:induction false} StretchesUnique(values: seq<Value>, xs: seq<nat>, c: seq<nat>, ys: seq<nat>, d: seq<nat>, n: nat)
    requires Stretches(values, xs, c) && Stretches(values, ys, d) && n <= |values|
    ensures c[n] == d[n] <= |xs| && c[n] <= |ys| && xs[..c[n]] == ys[..c[n]]
  {
    if n > 0 {
      StretchesUnique(values, xs, c, ys, d, n - 1);
      assert StretchAt(values, xs, c, n - 1) && StretchAt(values, ys, d, n - 1);
      SpellsUnique(values[n - 1], xs[c[n - 1]..c[n]], ys[d[n - 1]..d[n]]);
      assert xs[..c[n]] == xs[..c[n - 1]] + xs[c[n - 1]..c[n]] && ys[..d[n]] == ys[..d[n - 1]] + ys[d[n - 1]..d[n]];
    }
  }

  /** However a list of numbers is cut into single and packed values, that list comes out, in order. */
  lemma AnyMixFlattens(values: seq<Value>, xs: seq<nat>, r: Result<seq<nat>>)
    requires Numbers(values, xs) && Flattens(values, r)
    ensures r == Ok(xs)
  {
    var c :| Stretches(values, xs, c) && c[|values|] == |xs|;
    forall v | v in values ensures exists part :: Spells(v, part) {
      var n :| 0 <= n < |values| && values[n] == v;
      assert StretchAt(values, xs, c, n);
    }
    var d :| Stretches(values, r.value, d) && d[|values|] == |r.value|;
    StretchesUnique(values, xs, c, r.value, d, |values|);
    assert xs[..|xs|] == xs && r.value[..|xs|] == r.value;
  }

  /** A single number stands for itself. */
  lemma NumbersOne(n: nat)
    ensures Numbers([Int(n)], [n])
  {
    assert Stretches([], [], [0]);
    StretchesNext([], [], [0], Int(n), [n]);
    assert [] + [Int(n)] == [Int(n)] && [] + [n] == [n];
    assert Stretches([Int(n)], [n], [0] + [1]);
  }

  /** The numbers of one list of values followed by another are the numbers of the first and then of the
      second. */
  lemma {:induction false} NumbersConcat(a: seq<Value>, xs: seq<nat>, b: seq<Value>, ys: seq<nat>)
    requires Numbers(a, xs) && Numbers(b, ys)
    ensures Numbers(a + b, xs + ys)
    decreases |b|
  {
    var d :| Stretches(b, ys, d) && d[|b|] == |ys|;
    if b == [] {
      assert a + b == a && xs + ys == xs;
    } else {
      var k := |b| - 1;
      assert StretchAt(b, ys, d, k);
      var front, early := b[..k], ys[..d[k]];
      FrontStretches(b, ys, d);
      NumbersConcat(a, xs, front, early);
      var c :| Stretches(a + front, xs + early, c) && c[|a + front|] == |xs + early|;
      var late := ys[d[k]..|ys|];
      StretchesNext(a + front, xs + early, c, b[k], late);
      assert a + front + [b[k]] == a + b && xs + early + late == xs + ys;
    }
  }

  lemma FrontStretches(b: seq<Value>, ys: seq<nat>, d: seq<nat>)
    requires b != [] && Stretches(b, ys, d) && d[|b| - 1] <= |ys|
    ensures Numbers(b[..|b| - 1], ys[..d[|b| - 1]])
  {
    var k := |b| - 1;
    var front, early, cuts := b[..k], ys[..d[k]], d[..k + 1];
    forall n | 0 <= n < k ensures StretchAt(front, early, cuts, n) && d[n + 1] <= d[k] {
      Ascends(b, ys, d, n + 1, k);
      assert StretchAt(b, ys, d, n);
      assert early[d[n]..d[n + 1]] == ys[d[n]..d[n + 1]];
    }
    assert Stretches(front, early, cuts);
  }

  lemma {:induction false} Ascends(b: seq<Value>, ys: seq<nat>, d: seq<nat>, m: nat, n: nat)
    requires Stretches(b, ys, d) && m <= n <= |b|
    ensures d[m] <= d[n]
    decreases n - m
  {
    if m < n {
      Ascends(b, ys, d, m, n - 1);
      assert StretchAt(b, ys, d, n - 1);
    }
  }

  function EncodePacked(xs: seq<nat>): seq<byte> {
    if xs == [] then [] else EncodePacked(xs[..|xs| - 1]) + EncodeVarint(xs[|xs| - 1])
  }

  lemma {:induction false} PackedInside(data: seq<byte>, j: nat, xs: seq<nat>) returns (cuts: seq<nat>)
    requires forall n :: 0 <= n < |xs| ==> xs[n] < Scale(10)
    requires j <= |data| && data[0..j] == EncodePacked(xs)
    ensures PackedCut(data, xs, cuts) && cuts[|xs|] == j
  {
    if xs == [] {
      cuts := [0];
    } else {
      var front, last := xs[..|xs| - 1], xs[|xs| - 1];
      var i := |EncodePacked(front)|;
      SliceSplit(data, 0, j, EncodePacked(front), EncodeVarint(last));
      cuts := PackedInside(data, i, front);
      VarintInside(data, i, j, last);
      PackedExtend(data, front, cuts, last, j);
      cuts := cuts + [j];
      assert xs == front + [last];
    }
  }

  lemma PackedSpells(xs: seq<nat>)
    requires forall n :: 0 <= n < |xs| ==> xs[n] < Scale(10)
    ensures Spells(Bytes(EncodePacked(xs)), xs)
  {
    var b := EncodePacked(xs);
    assert b[0..|b|] == b;
    var cuts := PackedInside(b, |b|, xs);
  }
}
