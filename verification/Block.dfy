/** TLV blocks that point into shared buffers, and trees of them. */
module Blocks {
  import opened Bytes
  import opened Tlv
  import opened Encoding

  /** A block value. The offsets are iterators into `buffer`; a block without a buffer is
      made of its elements only. */
  datatype Block = Block(typ: nat, buffer: array?<Byte>, begin: nat, end: nat,
                         valueBegin: nat, valueEnd: nat, size: nat, elements: seq<Block>)

  predicate HasWire(b: Block) {
    b.buffer != null && b.begin != b.end
  }

  predicate HasValue(b: Block) {
    b.buffer != null
  }

  function ValueSize(b: Block): int {
    if b.buffer != null then b.valueEnd - b.valueBegin else 0
  }

  /** What every constructor that verifies the TLV-LENGTH establishes: iterators inside the buffer
      and a size not below the shortest form. Elements under a value are not encoded again. */
  ghost predicate Valid(b: Block) {
    && IsType(b.typ)
    && (b.buffer != null ==>
          && b.begin <= b.end <= b.buffer.Length
          && b.valueBegin <= b.valueEnd <= b.buffer.Length
          && ShortestSize(b.typ, b.valueEnd - b.valueBegin) <= b.size)
    && (b.buffer == null ==> ValidAll(b.elements))
  }

  ghost predicate ValidAll(es: seq<Block>) {
    forall i :: 0 <= i < |es| ==> Valid(es[i])
  }

  function ShortestSize(typ: nat, length: nat): nat {
    SizeOfVarNumber(typ) + SizeOfVarNumber(length) + length
  }

  // ---- the meaning of a block ----

  /** What a block stands for, without buffers and iterators. */
  datatype Tree = Leaf(typ: nat, value: seq<Byte>) | Node(typ: nat, children: seq<Tree>)

  function TreeValue(t: Tree): seq<Byte>
    decreases t, 1
  {
    match t
    case Leaf(_, value) => value
    case Node(_, children) => TreesWire(children)
  }

  function TreeWire(t: Tree): seq<Byte>
    decreases t, 2
  {
    WireOf(t.typ, TreeValue(t))
  }

  function TreesWire(ts: seq<Tree>): seq<Byte>
    decreases ts, 0
  {
    if ts == [] then [] else TreeWire(ts[0]) + TreesWire(ts[1..])
  }

  /** The buffers that the meaning of a block depends on. */
  ghost function Buffers(b: Block): set<array<Byte>>
    decreases b, 1
  {
    if b.buffer != null then {b.buffer} else BuffersOfAll(b.elements)
  }

  ghost function BuffersOfAll(es: seq<Block>): set<array<Byte>>
    decreases es, 0
  {
    if es == [] then {} else Buffers(es[0]) + BuffersOfAll(es[1..])
  }

  ghost function Meaning(b: Block): (t: Tree)
    requires Valid(b)
    reads Buffers(b)
    decreases b, 1
  {
    if b.buffer != null then Leaf(b.typ, b.buffer[b.valueBegin..b.valueEnd])
    else Node(b.typ, MeaningOfAll(b.elements))
  }

  ghost function MeaningOfAll(es: seq<Block>): (ts: seq<Tree>)
    requires ValidAll(es)
    reads BuffersOfAll(es)
    ensures |ts| == |es|
    decreases es, 0
  {
    if es == [] then [] else [Meaning(es[0])] + MeaningOfAll(es[1..])
  }

  // ---- the estimator pass ----

  function EstimatedSize(b: Block): nat
    decreases b, 1
  {
    if b.buffer != null then b.size
    else ShortestSize(b.typ, EstimatedSizeOfAll(b.elements))
  }

  function EstimatedSizeOfAll(es: seq<Block>): nat
    decreases es, 0
  {
    if es == [] then 0 else EstimatedSize(es[0]) + EstimatedSizeOfAll(es[1..])
  }

  /** Block::encode(EncodingEstimator&), with its loop over the elements from the last one. */
  method Estimate(b: Block) returns (len: nat)
    ensures len == EstimatedSize(b)
    decreases b
  {
    if HasValue(b) {
      return b.size;
    }
    len := 0;
    for i := |b.elements| downto 0
      invariant len == EstimatedSizeOfAll(b.elements[i..])
    {
      var l := Estimate(b.elements[i]);
      len := len + l;
      assert b.elements[i..][0] == b.elements[i] && b.elements[i..][1..] == b.elements[i + 1..];
    }
    len := len + SizeOfVarNumber(len);
    len := len + SizeOfVarNumber(b.typ);
    assert b.elements[0..] == b.elements;
  }

  /** All sizes in the tree are those of the shortest form. */
  ghost predicate Shortest(b: Block) {
    if b.buffer != null then b.valueBegin <= b.valueEnd && b.size == ShortestSize(b.typ, b.valueEnd - b.valueBegin)
    else forall i :: 0 <= i < |b.elements| ==> Shortest(b.elements[i])
  }

  /** The estimate is never below what will be written, and is exact for shortest forms only. */
  lemma {:induction false} EstimateCovers(b: Block)
    requires Valid(b)
    ensures |TreeWire(Meaning(b))| <= EstimatedSize(b)
    ensures Shortest(b) <==> |TreeWire(Meaning(b))| == EstimatedSize(b)
    decreases b, 1
  {
    if b.buffer == null {
      EstimateCoversAll(b.elements);
    }
  }

  lemma {:induction false} EstimateCoversAll(es: seq<Block>)
    requires ValidAll(es)
    ensures |TreesWire(MeaningOfAll(es))| <= EstimatedSizeOfAll(es)
    ensures (forall i :: 0 <= i < |es| ==> Shortest(es[i])) <==>
              |TreesWire(MeaningOfAll(es))| == EstimatedSizeOfAll(es)
    decreases es, 0
  {
    if es != [] {
      EstimateCovers(es[0]);
      EstimateCoversAll(es[1..]);
      assert MeaningOfAll(es)[1..] == MeaningOfAll(es[1..]);
    }
  }

  // ---- the encoder pass ----

  /** Every iterator in `b` and in the elements encoded with it denotes, in `content`, the octets
      of the subtree it stands for; consecutive elements touch, from `valueBegin` to `valueEnd`. */
  ghost predicate Located(b: Block, t: Tree, buffer: array<Byte>, content: seq<Byte>)
    decreases t, 1
  {
    && b.typ == t.typ && b.buffer == buffer
    && b.begin <= b.valueBegin <= b.valueEnd == b.end <= |content|
    && content[b.begin..b.end] == TreeWire(t)
    && content[b.valueBegin..b.valueEnd] == TreeValue(t)
    && b.size == |TreeWire(t)|
    && (t.Node? ==> LocatedAll(b.elements, t.children, buffer, content, b.valueBegin, b.valueEnd))
  }

  ghost predicate LocatedAll(es: seq<Block>, ts: seq<Tree>, buffer: array<Byte>, content: seq<Byte>,
                             from: nat, to: nat)
    decreases ts, 0
  {
    if ts == [] then es == [] && from == to
    else
      && es != [] && es[0].begin == from
      && Located(es[0], ts[0], buffer, content)
      && LocatedAll(es[1..], ts[1..], buffer, content, es[0].end, to)
  }

  /** Writing in front of a located block leaves it located. */
  lemma {:induction false} LocatedStable(b: Block, t: Tree, buffer: array<Byte>,
                                         content: seq<Byte>, content': seq<Byte>, p: nat)
    requires Located(b, t, buffer, content) && p <= b.begin
    requires |content| == |content'| && p <= |content| && content[p..] == content'[p..]
    ensures Located(b, t, buffer, content')
    decreases t, 1
  {
    SameRange(content, content', p, b.begin, b.end);
    SameRange(content, content', p, b.valueBegin, b.valueEnd);
    if t.Node? {
      LocatedAllStable(b.elements, t.children, buffer, content, content', p, b.valueBegin, b.valueEnd);
    }
  }

  lemma SameRange(s: seq<Byte>, s': seq<Byte>, p: nat, i: nat, j: nat)
    requires |s| == |s'| && p <= i <= j <= |s| && s[p..] == s'[p..]
    ensures s[i..j] == s'[i..j]
  {
    forall k | p <= k < |s|
      ensures s[k] == s'[k]
    {
      assert s[p..][k - p] == s'[p..][k - p];
    }
  }

  lemma {:induction false} LocatedAllStable(es: seq<Block>, ts: seq<Tree>, buffer: array<Byte>,
                                            content: seq<Byte>, content': seq<Byte>, p: nat, from: nat, to: nat)
    requires LocatedAll(es, ts, buffer, content, from, to) && p <= from
    requires |content| == |content'| && p <= |content| && content[p..] == content'[p..]
    ensures LocatedAll(es, ts, buffer, content', from, to)
    decreases ts, 0
  {
    if ts != [] {
      LocatedStable(es[0], ts[0], buffer, content, content', p);
      LocatedAllStable(es[1..], ts[1..], buffer, content, content', p, es[0].end, to);
    }
  }

  lemma {:induction false} EstimateOfSuffix(es: seq<Block>, i: nat)
    requires i < |es|
    ensures EstimatedSize(es[i]) + EstimatedSizeOfAll(es[i + 1..]) <= EstimatedSizeOfAll(es)
  {
    if i > 0 {
      EstimateOfSuffix(es[1..], i - 1);
      assert es[1..][i..] == es[i + 1..];
    }
  }

  lemma {:induction false} BuffersOfMember(es: seq<Block>, i: nat)
    requires i < |es|
    ensures Buffers(es[i]) <= BuffersOfAll(es)
  {
    if i > 0 {
      BuffersOfMember(es[1..], i - 1);
    }
  }

  lemma {:induction false} MeaningOfMember(es: seq<Block>, i: nat)
    requires ValidAll(es) && i < |es|
    ensures MeaningOfAll(es)[i] == Meaning(es[i])
  {
    if i > 0 {
      MeaningOfMember(es[1..], i - 1);
    }
  }

  lemma {:induction false} MeaningOfSuffix(es: seq<Block>, i: nat)
    requires ValidAll(es) && i <= |es|
    ensures MeaningOfAll(es[i..]) == MeaningOfAll(es)[i..]
  {
    if i == 0 {
      assert es[0..] == es;
    } else {
      MeaningOfSuffix(es[1..], i - 1);
      assert es[1..][i - 1..] == es[i..];
      assert MeaningOfAll(es)[i..] == MeaningOfAll(es[1..])[i - 1..];
    }
  }

  /** Block::encode(EncodingBuffer&): value or elements, then TLV-LENGTH and TLV-TYPE, each in front
      of what is there, storing iterators on the way. With the estimated room in front, none of
      the writes moves the buffer, so the stored iterators stay good. */
  method EncodeInto(b: Block, enc: Encoder) returns (r: Block, len: nat)
    requires Valid(b) && enc.Valid() && enc.buffer !in Buffers(b)
    requires EstimatedSize(b) <= enc.begin && EstimatedSize(b) < TWO_64
    modifies enc, enc.buffer
    ensures enc.Valid() && enc.buffer == old(enc.buffer) && enc.end == old(enc.end)
    ensures len == |TreeWire(old(Meaning(b)))| && enc.begin == old(enc.begin) - len
    ensures enc.buffer[enc.begin..] == TreeWire(old(Meaning(b))) + old(enc.buffer[enc.begin..])
    ensures r.begin == enc.begin && r.end == old(enc.begin)
    ensures Located(r, old(Meaning(b)), enc.buffer, enc.buffer[..])
    decreases b, 1
  {
    ghost var t := Meaning(b);
    ghost var was := enc.buffer[enc.begin..];
    EstimateCovers(b);
    var end := enc.begin;
    var elements := b.elements;
    if HasValue(b) {
      len := enc.PrependRange(b.buffer[b.valueBegin..b.valueEnd]);
      assert enc.buffer[enc.begin..] == t.value + was;
    } else {
      elements, len := EncodeElements(b, enc);
    }
    var valueBegin := enc.begin;
    ghost var content := enc.buffer[..];
    var l1 := enc.PrependVarNumber(len);
    len := len + l1;
    var l2 := enc.PrependVarNumber(b.typ);
    len := len + l2;
    r := Block(b.typ, enc.buffer, enc.begin, end, valueBegin, end, len, elements);
    HeaderInFront(t, content, enc.buffer[..], was, valueBegin, end, enc.begin);
    if t.Node? {
      LocatedAllStable(elements, t.children, enc.buffer, content, enc.buffer[..], valueBegin, valueBegin, end);
    }
  }

  /** The loop over the elements, from the last one. */
  method EncodeElements(b: Block, enc: Encoder) returns (elements: seq<Block>, len: nat)
    requires Valid(b) && b.buffer == null && enc.Valid() && enc.buffer !in Buffers(b)
    requires EstimatedSize(b) <= enc.begin && EstimatedSize(b) < TWO_64
    modifies enc, enc.buffer
    ensures enc.Valid() && enc.buffer == old(enc.buffer) && enc.end == old(enc.end)
    ensures len == |TreesWire(old(Meaning(b).children))| && enc.begin == old(enc.begin) - len
    ensures enc.buffer[enc.begin..] == TreesWire(old(Meaning(b).children)) + old(enc.buffer[enc.begin..])
    ensures LocatedAll(elements, old(Meaning(b).children), enc.buffer, enc.buffer[..], enc.begin, old(enc.begin))
    decreases b, 0
  {
    ghost var ts := Meaning(b).children;
    ghost var (was, room) := (enc.buffer[enc.begin..], enc.begin);
    elements, len := [], 0;
    for i := |b.elements| downto 0
      invariant enc.Valid() && enc.buffer == old(enc.buffer) && enc.end == old(enc.end)
      invariant Meaning(b).children == ts
      invariant len == |TreesWire(ts[i..])| && enc.begin == room - len
      invariant enc.buffer[enc.begin..] == TreesWire(ts[i..]) + was
      invariant LocatedAll(elements, ts[i..], enc.buffer, enc.buffer[..], enc.begin, room)
    {
      ghost var (content, from) := (enc.buffer[..], enc.begin);
      MemberFits(b, i, enc.buffer);
      BuffersAllocated(b);
      var e, l := EncodeInto(b.elements[i], enc);
      OneMoreLocated(e, elements, ts, i, enc.buffer, content, enc.buffer[..], from, room, was);
      elements := [e] + elements;
      len := len + l;
    }
    assert ts[0..] == ts;
  }

  lemma OneMoreLocated(e: Block, es: seq<Block>, ts: seq<Tree>, i: nat, buffer: array<Byte>,
                       content: seq<Byte>, content': seq<Byte>, from: nat, to: nat, was: seq<Byte>)
    requires i < |ts| && |content| == |content'| && from <= |content| && e.end == from
    requires Located(e, ts[i], buffer, content') && LocatedAll(es, ts[i + 1..], buffer, content, from, to)
    requires content[from..] == TreesWire(ts[i + 1..]) + was
    requires content'[e.begin..] == TreeWire(ts[i]) + content[from..]
    ensures LocatedAll([e] + es, ts[i..], buffer, content', e.begin, to)
    ensures content'[e.begin..] == TreesWire(ts[i..]) + was
    ensures |TreesWire(ts[i..])| == |TreeWire(ts[i])| + |TreesWire(ts[i + 1..])|
  {
    assert ts[i..][0] == ts[i] && ts[i..][1..] == ts[i + 1..];
    assert LocatedAll([e] + es, ts[i..], buffer, content', e.begin, to) by {
      Tails(content', e.begin, TreeWire(ts[i]), content[from..]);
      LocatedAllStable(es, ts[i + 1..], buffer, content, content', from, from, to);
      assert ([e] + es)[1..] == es;
    }
    Associative(TreeWire(ts[i]), TreesWire(ts[i + 1..]), was);
  }

  /** The next element still fits in front and still stands for what it stood for. */
  lemma MemberFits(b: Block, i: nat, buffer: array<Byte>)
    requires Valid(b) && b.buffer == null && i < |b.elements| && buffer !in Buffers(b)
    ensures Valid(b.elements[i]) && buffer !in Buffers(b.elements[i])
    ensures EstimatedSize(b.elements[i]) + |TreesWire(Meaning(b).children[i + 1..])| <= EstimatedSize(b)
    ensures Meaning(b.elements[i]) == Meaning(b).children[i]
  {
    EstimateOfSuffix(b.elements, i);
    BuffersOfMember(b.elements, i);
    MeaningOfMember(b.elements, i);
    MeaningOfSuffix(b.elements, i + 1);
    EstimateCoversAll(b.elements[i + 1..]);
  }

  lemma HeaderInFront(t: Tree, before: seq<Byte>, after: seq<Byte>, was: seq<Byte>,
                      valueBegin: nat, valueEnd: nat, begin: nat)
    requires |before| == |after| && begin <= valueBegin <= valueEnd <= |before|
    requires before[valueBegin..] == TreeValue(t) + was && valueEnd - valueBegin == |TreeValue(t)|
    requires after[begin..] == EncodeVarNumber(t.typ) + (EncodeVarNumber(|TreeValue(t)|) + before[valueBegin..])
    ensures after[begin..] == TreeWire(t) + was
    ensures after[begin..valueEnd] == TreeWire(t) && after[valueBegin..valueEnd] == TreeValue(t)
    ensures after[valueBegin..] == before[valueBegin..]
  {
    hide EncodeVarNumber, TreeValue;
    var (a, b, v) := (EncodeVarNumber(t.typ), EncodeVarNumber(|TreeValue(t)|), TreeValue(t));
    PartsInFront(a, b, v, was, after, begin);
  }

  /** Type, length and value in front of what was there. */
  lemma PartsInFront(a: seq<Byte>, b: seq<Byte>, v: seq<Byte>, was: seq<Byte>, after: seq<Byte>, begin: nat)
    requires begin <= |after| && after[begin..] == a + (b + (v + was))
    ensures after[begin..] == (a + b + v) + was
    ensures var (i, j) := (begin + |a + b|, begin + |a + b + v|);
      j <= |after| && after[begin..j] == a + b + v && after[i..j] == v && after[i..] == v + was
  {
    Associative(a, b, v + was);
    Associative(a + b, v, was);
    Tails(after, begin, a + b, v + was);
    Tails(after, begin + |a + b|, v, was);
    Tails(after, begin, a + b + v, was);
  }

  lemma {:induction false} BuffersAllocated(b: Block)
    ensures forall a :: a in Buffers(b) ==> allocated(a)
    decreases b, 1
  {
    if b.buffer == null {
      BuffersOfAllAllocated(b.elements);
    }
  }

  lemma {:induction false} BuffersOfAllAllocated(es: seq<Block>)
    ensures forall a :: a in BuffersOfAll(es) ==> allocated(a)
    decreases es, 0
  {
    if es != [] {
      BuffersAllocated(es[0]);
      BuffersOfAllAllocated(es[1..]);
    }
  }

  /** Block::encode(). */
  method Encode(b: Block) returns (r: Block)
    requires Valid(b) && EstimatedSize(b) < TWO_64
    ensures r.buffer != null && r.begin < r.end <= r.buffer.Length
    ensures b.buffer != null && b.begin < b.end ==> r == b
    ensures b.buffer == null || b.begin == b.end ==>
              && fresh(r.buffer) && r.buffer.Length == EstimatedSize(b)
              && Located(r, old(Meaning(b)), r.buffer, r.buffer[..])
              && r.end == r.buffer.Length
              && (Shortest(b) ==> r.buffer[..] == TreeWire(old(Meaning(b))))
    ensures b.buffer != null && b.begin == b.end ==>
              r.buffer[r.begin..r.end] == WireOf(b.typ, old(b.buffer[b.valueBegin..b.valueEnd]))
  {
    if HasWire(b) {
      return b;
    }
    ghost var (buffers, t) := (Buffers(b), Meaning(b));
    BuffersAllocated(b);
    var estimatedSize := Estimate(b);
    var enc := new Encoder(estimatedSize, 0);
    assert Meaning(b) == t;
    EstimateCovers(b);
    var len: nat;
    r, len := EncodeInto(b, enc);
    assert Shortest(b) ==> enc.begin == 0 && enc.buffer[..] == enc.buffer[0..];
    assert r.buffer[..][r.begin..r.end] == r.buffer[r.begin..r.end] == TreeWire(t);
  }

  /** Block(type, value): a block that has a value and no wire yet. */
  method FromValue(typ: nat, value: seq<Byte>) returns (b: Block)
    requires IsType(typ) && |value| < TWO_64
    ensures Valid(b) && b.buffer != null && fresh(b.buffer) && b.buffer[..] == value && b.begin == b.end
    ensures b.typ == typ && b.valueBegin == 0 && b.valueEnd == |value| && b.elements == []
    ensures EstimatedSize(b) == |WireOf(typ, value)|
  {
    var buffer := new Byte[|value|](i requires 0 <= i < |value| => value[i]);
    b := Block(typ, buffer, |value|, |value|, 0, |value|, ShortestSize(typ, |value|), []);
  }

  // ---- reading ----

  /** `b` denotes, in `content`, the element `e` in the form it was read in. */
  ghost predicate IsAt(b: Block, e: Element, buffer: array<Byte>, content: seq<Byte>) {
    && b.typ == e.typ && b.buffer == buffer && b.size == |e.wire| && b.elements == []
    && b.begin <= b.valueBegin <= b.valueEnd == b.end <= |content|
    && content[b.begin..b.end] == e.wire && content[b.valueBegin..b.valueEnd] == e.value
  }

  /** `es` denote the elements `ps`, one after the other without gaps, in `content[from..to]`. */
  ghost predicate Tile(es: seq<Block>, ps: seq<Element>, buffer: array<Byte>, content: seq<Byte>,
                       from: nat, to: nat) {
    && |es| == |ps| && to == TileEnd(es, from)
    && (forall i :: 0 <= i < |es| ==> IsAt(es[i], ps[i], buffer, content) && es[i].begin == TileEnd(es[..i], from))
  }

  function TileEnd(es: seq<Block>, from: nat): nat {
    if es == [] then from else es[|es| - 1].end
  }

  lemma TileOneMore(es: seq<Block>, ps: seq<Element>, buffer: array<Byte>, content: seq<Byte>,
                    from: nat, b: Block, e: Element)
    requires Tile(es, ps, buffer, content, from, b.begin) && IsAt(b, e, buffer, content)
    ensures Tile(es + [b], ps + [e], buffer, content, from, b.end)
  {
    forall i | 0 <= i < |es + [b]|
      ensures (es + [b])[i].begin == TileEnd((es + [b])[..i], from)
    {
      assert (es + [b])[..i] == es[..i];
    }
  }

  /** Block(span): a block over its own copy of one element. */
  method FromSpan(s: seq<Byte>) returns (r: Result<Block, TlvError>)
    ensures r.Err? ==> BlockOfSpan(s) == Err(r.error)
    ensures r.Ok? ==>
              && BlockOfSpan(s).Ok? && Valid(r.value) && r.value.begin < r.value.end
              && fresh(r.value.buffer) && r.value.buffer[..] == BlockOfSpan(s).value.wire
              && IsAt(r.value, BlockOfSpan(s).value, r.value.buffer, r.value.buffer[..])
  {
    match BlockOfSpan(s) {
      case Err(e) => r := Err(e);
      case Ok(e) =>
        ElementBounds(s);
        var buffer := new Byte[|e.wire|](i requires 0 <= i < |e.wire| => e.wire[i]);
        assert buffer[..] == e.wire;
        r := Ok(Block(e.typ, buffer, 0, |e.wire|, |e.wire| - |e.value|, |e.wire|, |e.wire|, []));
    }
  }

  /** Block::parse(). It does nothing on a block that has elements; a TLV-LENGTH that does not fit
      drops the elements read so far, any other error leaves them. */
  method Parse(b: Block) returns (r: Block, error: Option<TlvError>)
    requires Valid(b)
    ensures r == b.(elements := r.elements)
    ensures b.elements != [] || b.buffer == null || b.valueBegin == b.valueEnd ==> r == b && error.None?
    ensures b.elements == [] && b.buffer != null && b.valueBegin < b.valueEnd ==>
              var p := ParseElements(b.buffer[b.valueBegin..b.valueEnd]);
              && error == p.error
              && (if error.Some? && error.value.ValueTooShort? then r.elements == []
                  else Tile(r.elements, p.elements, b.buffer, b.buffer[..], b.valueBegin,
                            if error.None? then b.valueEnd else TileEnd(r.elements, b.valueBegin)))
  {
    r, error := b, None;
    if b.elements != [] || ValueSize(b) == 0 {
      return;
    }
    var elements;
    elements, error := ParseValue(b);
    r := b.(elements := elements);
  }

  method ParseValue(b: Block) returns (elements: seq<Block>, error: Option<TlvError>)
    requires Valid(b) && b.buffer != null
    ensures var p := ParseElements(b.buffer[b.valueBegin..b.valueEnd]);
      && error == p.error
      && (if error.Some? && error.value.ValueTooShort? then elements == []
          else Tile(elements, p.elements, b.buffer, b.buffer[..], b.valueBegin,
                    if error.None? then b.valueEnd else TileEnd(elements, b.valueBegin)))
  {
    hide BlockOfSpan, WellFormed, IsAt;
    elements, error := [], None;
    var (begin, end) := (b.valueBegin, b.valueEnd);
    ghost var content := b.buffer[..];
    assert content[begin..end] == b.buffer[begin..end];
    ghost var done: seq<Element> := [];
    while begin != end
      invariant b.valueBegin <= begin <= end
      invariant Tile(elements, done, b.buffer, content, b.valueBegin, begin)
      invariant Wires(done) == content[b.valueBegin..begin]
      invariant forall i :: 0 <= i < |done| ==> WellFormed(done[i])
      decreases end - begin
    {
      var s := b.buffer[begin..end];
      assert s == content[begin..end];
      match BlockOfSpan(s) {
        case Err(e) =>
          if e.ValueTooShort? {
            elements := [];
          }
          error := Some(e);
          ParseUpTo(done, s);
          Join(content, b.valueBegin, begin, end);
          assert done + [] == done;
          return;
        case Ok(e) =>
          var subEnd := begin + |e.wire|;
          ParseStep(content, s, begin, end, e);
          var element := Block(e.typ, b.buffer, begin, subEnd, subEnd - |e.value|, subEnd, |e.wire|, []);
          TileOneMore(elements, done, b.buffer, content, b.valueBegin, element, e);
          WiresSnoc(done, e);
          Join(content, b.valueBegin, begin, subEnd);
          elements := elements + [element];
          done := done + [e];
          begin := subEnd;
      }
    }
    ParseInvertsConcatenation(done);
  }

  lemma ParseStep(content: seq<Byte>, s: seq<Byte>, begin: nat, end: nat, e: Element)
    requires begin < end <= |content| && s == content[begin..end] && BlockOfSpan(s) == Ok(e)
    ensures WellFormed(e) && 0 < |e.wire| <= end - begin && |e.value| <= |e.wire|
    ensures content[begin..begin + |e.wire|] == e.wire
    ensures content[begin + |e.wire| - |e.value|..begin + |e.wire|] == e.value
  {
    hide BlockOfSpan;
    ElementSpan(s, []);
    assert e.wire + [] == e.wire;
    ElementBounds(s);
    SubRange(content, begin, end, |e.wire|, |e.value|);
  }

  lemma SubRange(content: seq<Byte>, begin: nat, end: nat, m: nat, n: nat)
    requires begin <= end <= |content| && n <= m <= end - begin
    ensures content[begin..begin + m] == content[begin..end][..m]
    ensures content[begin + m - n..begin + m] == content[begin..end][..m][m - n..]
  {
  }

  // ---- editing ----

  /** Block::resetWire(): keep the type and the elements. Every edit of the elements does this. */
  function ResetWire(b: Block): Block {
    b.(buffer := null, begin := 0, end := 0, valueBegin := 0, valueEnd := 0)
  }

  lemma {:induction false} MeaningOfTiles(es: seq<Block>, ps: seq<Element>, buffer: array<Byte>)
    requires |es| == |ps| && forall i :: 0 <= i < |ps| ==> WellFormed(ps[i])
    requires forall i :: 0 <= i < |es| ==> IsAt(es[i], ps[i], buffer, buffer[..])
    ensures ValidAll(es) && TreesWire(MeaningOfAll(es)) == Wires(Shorten(ps))
    ensures EstimatedSizeOfAll(es) == |Wires(ps)|
  {
    hide BlockOfSpan;
    if es != [] {
      MeaningOfTiles(es[1..], ps[1..], buffer);
      MeaningOfTile(es[0], ps[0], buffer);
      assert MeaningOfAll(es)[0] == Meaning(es[0]) && MeaningOfAll(es)[1..] == MeaningOfAll(es[1..]);
      assert Shorten(ps)[1..] == Shorten(ps[1..]);
    }
  }

  lemma MeaningOfTile(b: Block, e: Element, buffer: array<Byte>)
    requires WellFormed(e) && IsAt(b, e, buffer, buffer[..])
    ensures Valid(b) && TreeWire(Meaning(b)) == WireOf(e.typ, e.value) && EstimatedSize(b) == |e.wire|
  {
    WellFormedBounds(e);
    assert buffer[..][b.valueBegin..b.valueEnd] == buffer[b.valueBegin..b.valueEnd];
  }

  /** Parse, drop the wire and encode again, as an edited lp::Packet is sent: the same types and values,
      each element in its shortest form, in a buffer of its own. */
  method Reencode(b: Block) returns (r: Result<Block, TlvError>)
    requires Valid(b) && b.elements == [] && ValueSize(b) > 0
    requires ShortestSize(b.typ, ValueSize(b)) < TWO_64
    ensures var p := ParseElements(b.buffer[b.valueBegin..b.valueEnd]);
      && (p.error.Some? ==> r == Err(p.error.value))
      && (p.error.None? ==>
            && r.Ok? && r.value.buffer != null && fresh(r.value.buffer)
            && r.value.begin < r.value.end <= r.value.buffer.Length
            && r.value.buffer[r.value.begin..r.value.end] == WireOf(b.typ, Wires(Shorten(p.elements))))
  {
    hide BlockOfSpan, ParseElements;
    var parsed, error := Parse(b);
    if error.Some? {
      return Err(error.value);
    }
    ghost var value := b.buffer[b.valueBegin..b.valueEnd];
    ghost var ps := ParseElements(value).elements;
    ParsePartitions(value);
    MeaningOfTiles(parsed.elements, ps, b.buffer);
    var bare := ResetWire(parsed);
    assert Valid(bare) && EstimatedSize(bare) == ShortestSize(b.typ, |value|);
    ghost var t := Meaning(bare);
    assert TreeWire(t) == WireOf(b.typ, Wires(Shorten(ps)));
    var encoded := Encode(bare);
    assert encoded.buffer[..][encoded.begin..encoded.end] == TreeWire(t);
    r := Ok(encoded);
  }
}
