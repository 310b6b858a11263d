/** SEQUENCE OF: the traversal of asn1parse.c over the elements of a sequence. */
module DerSequence {
  import opened Words
  import opened Der
  import opened DerParse

  /** An element: its tag and its content. */
  datatype Item = Item(tag: Byte, content: Bytes)

  /** What a tag must match for the traversal to go on, and to be reported. */
  datatype Masks = Masks(mustMask: Byte, mustVal: Byte, mayMask: Byte, mayVal: Byte)
  {
    predicate Must(tag: Byte) { BitAnd(tag, mustMask) == mustVal }

    predicate May(tag: Byte) { BitAnd(tag, mayMask) == mayVal }
  }

  /** The callback and its context: what it returns for an element after the ones it was called
      with before. (No callback is one that always returns 0.) */
  type Callback = (seq<Item>, Item) -> int

  /** The end of a traversal: all elements passed, an error in the data, or the nonzero return
      value of the callback. */
  datatype End = Done | Failed(error: Error) | Stopped(code: int)

  /** The elements the callback was called with, and the end. */
  datatype Outcome = Outcome(calls: seq<Item>, end: End)

  /** The elements in s, one behind the other, after some calls. */
  function Elements(m: Masks, cb: Callback, calls: seq<Item>, s: Bytes): Outcome
    decreases |s|, 0
  {
    if s == [] then Outcome(calls, Done)
    else if !m.Must(s[0]) then Outcome(calls, Failed(UnexpectedTag))
    else
      var r := ParseLength(s[1..]);
      if r.Err? then Outcome(calls, Failed(r.error))
      else
        var f := r.value;
        Reported(m, cb, calls, Item(s[0], Content(s[1..], f)), s[1 + f.size + f.length..])
  }

  /** An element, and what comes behind it. */
  function Reported(m: Masks, cb: Callback, calls: seq<Item>, i: Item, rest: Bytes): Outcome
    decreases |rest|, 1
  {
    if !m.May(i.tag) then Elements(m, cb, calls, rest)
    else if cb(calls, i) != 0 then Outcome(calls + [i], Stopped(cb(calls, i)))
    else Elements(m, cb, calls + [i], rest)
  }

  /** mbedtls_asn1_traverse_sequence_of; the sequence must reach to the end of the data. */
  function Sequence(m: Masks, cb: Callback, s: Bytes): Outcome {
    match ParseTag(s, TagSequence)
    case Err(e) => Outcome([], Failed(e))
    case Ok(f) =>
      if f.size + f.length != |s| then Outcome([], Failed(LengthMismatch)) else Elements(m, cb, [], Content(s, f))
  }

  /** The encodings of the elements. */
  function Encoded(items: seq<Item>): Bytes
    requires forall k :: 0 <= k < |items| ==> |items[k].content| < 0x1_0000_0000
  {
    if items == [] then [] else Tlv(items[0].tag, items[0].content) + Encoded(items[1..])
  }

  function Chosen(m: Masks, items: seq<Item>): seq<Item> {
    if items == [] then []
    else (if m.May(items[0].tag) then [items[0]] else []) + Chosen(m, items[1..])
  }

  /** The callback gets the elements of all in order, up to the first it does not accept; its
      answer to that one is the result. */
  predicate InOrder(cb: Callback, all: seq<Item>, o: Outcome) {
    o.calls <= all
    && (forall k :: 0 <= k < |o.calls| - 1 ==> cb(all[..k], all[k]) == 0)
    && o.end == (if Answer(cb, o.calls) != 0 then Stopped(Answer(cb, o.calls)) else Done)
    && (Answer(cb, o.calls) == 0 ==> o.calls == all)
  }

  /** What the callback returned last. */
  function Answer(cb: Callback, calls: seq<Item>): int {
    if calls == [] then 0 else cb(calls[..|calls| - 1], calls[|calls| - 1])
  }

  lemma ElementFirst(m: Masks, cb: Callback, calls: seq<Item>, i: Item, rest: Bytes)
    requires |i.content| < 0x1_0000_0000 && m.Must(i.tag)
    ensures Elements(m, cb, calls, Tlv(i.tag, i.content) + rest) == Reported(m, cb, calls, i, rest)
  {
    hide LengthField, ParseLength, Reported, m.Must;
    var s := Tlv(i.tag, i.content) + rest;
    var n := |LengthField(|i.content|)|;
    assert s[1..] == LengthField(|i.content|) + (i.content + rest);
    LengthRoundTrip(|i.content|, i.content + rest);
    assert Content(s[1..], Field(n, |i.content|)) == i.content;
    assert s[1 + n + |i.content|..] == rest;
  }

  /** Traversing what was written calls back for the elements that the second mask lets through,
      in order, until the callback stops it. */
  lemma {:induction false} ElementsRoundTrip(m: Masks, cb: Callback, calls: seq<Item>, items: seq<Item>)
    requires forall k :: 0 <= k < |items| ==> |items[k].content| < 0x1_0000_0000 && m.Must(items[k].tag)
    requires forall k :: 0 <= k < |calls| ==> cb(calls[..k], calls[k]) == 0
    ensures InOrder(cb, calls + Chosen(m, items), Elements(m, cb, calls, Encoded(items)))
    decreases |items|
  {
    hide Tlv, m.Must, m.May, InOrder;
    if items == [] {
      assert calls + Chosen(m, items) == calls;
      AllAccepted(cb, calls);
    } else {
      var i, rest := items[0], items[1..];
      ElementFirst(m, cb, calls, i, Encoded(rest));
      if !m.May(i.tag) {
        assert Chosen(m, items) == Chosen(m, rest);
        ElementsRoundTrip(m, cb, calls, rest);
      } else {
        assert calls + Chosen(m, items) == (calls + [i]) + Chosen(m, rest);
        var next := calls + [i];
        assert next[..|calls|] == calls && forall k :: 0 <= k < |calls| ==> next[..k] == calls[..k];
        if cb(calls, i) != 0 {
          LastRefused(cb, calls, i, Chosen(m, rest));
        } else {
          ElementsRoundTrip(m, cb, next, rest);
        }
      }
    }
  }

  lemma AllAccepted(cb: Callback, calls: seq<Item>)
    requires forall k :: 0 <= k < |calls| ==> cb(calls[..k], calls[k]) == 0
    ensures InOrder(cb, calls, Outcome(calls, Done))
  {}

  lemma LastRefused(cb: Callback, calls: seq<Item>, i: Item, rest: seq<Item>)
    requires forall k :: 0 <= k < |calls| ==> cb(calls[..k], calls[k]) == 0
    requires cb(calls, i) != 0
    ensures InOrder(cb, calls + [i] + rest, Outcome(calls + [i], Stopped(cb(calls, i))))
  {
    var all := calls + [i] + rest;
    assert forall k :: 0 <= k <= |calls| ==> all[..k] == calls[..k];
    assert calls[..|calls|] == calls;
  }

  lemma SequenceRoundTrip(m: Masks, cb: Callback, items: seq<Item>)
    requires forall k :: 0 <= k < |items| ==> |items[k].content| < 0x1_0000_0000 && m.Must(items[k].tag)
    requires |Encoded(items)| < 0x1_0000_0000
    ensures InOrder(cb, Chosen(m, items), Sequence(m, cb, Tlv(TagSequence, Encoded(items))))
  {
    hide *;
    var c := Encoded(items);
    TlvRoundTrip(TagSequence, c, []);
    SequenceIs(m, cb, Tlv(TagSequence, c), Field(1 + |LengthField(|c|)|, |c|));
    ElementsRoundTrip(m, cb, [], items);
    assert [] + Chosen(m, items) == Chosen(m, items);
  }

  lemma SequenceIs(m: Masks, cb: Callback, s: Bytes, f: Field)
    requires ParseTag(s + [], TagSequence) == Ok(f) && f.size + f.length == |s|
    ensures Sequence(m, cb, s) == Elements(m, cb, [], Content(s, f)) && Content(s, f) == Content(s + [], f)
  {
    assert s + [] == s;
  }

  /** The loop. */
  method TraverseElements(m: Masks, cb: Callback, data: Bytes, p: nat, end: nat) returns (out: Outcome)
    requires p <= end <= |data|
    ensures out == Elements(m, cb, [], data[p..end])
  {
    hide ParseLength, Elements;
    var calls := [];
    var q := p;
    while q < end
      invariant p <= q <= end
      invariant Elements(m, cb, [], data[p..end]) == Elements(m, cb, calls, data[q..end])
    {
      ghost var s := data[q..end];
      var tag := data[q];
      q := q + 1;
      ElementsStep(m, cb, calls, s);
      assert s[0] == tag && s[1..] == data[q..end];
      if BitAnd(tag, m.mustMask) != m.mustVal { return Outcome(calls, Failed(UnexpectedTag)); }
      var r, q' := GetLen(data, q, end);
      if r.Err? { return Outcome(calls, Failed(r.error)); }
      SliceOfSlice(data, q, end, q' - q, q' - q + r.value);
      assert s[1 + (q' - q) + r.value..] == data[q' + r.value..end];
      if BitAnd(tag, m.mayMask) == m.mayVal {
        var i := Item(tag, data[q'..q' + r.value]);
        var code := cb(calls, i);
        calls := calls + [i];
        if code != 0 { return Outcome(calls, Stopped(code)); }
      }
      q := q' + r.value;
    }
    ElementsStep(m, cb, calls, data[q..end]);
    return Outcome(calls, Done);
  }

  lemma ElementsStep(m: Masks, cb: Callback, calls: seq<Item>, s: Bytes)
    ensures s == [] ==> Elements(m, cb, calls, s) == Outcome(calls, Done)
    ensures s != [] && !m.Must(s[0]) ==> Elements(m, cb, calls, s) == Outcome(calls, Failed(UnexpectedTag))
    ensures s != [] && m.Must(s[0]) ==>
      var r := ParseLength(s[1..]);
      Elements(m, cb, calls, s) ==
        if r.Err? then Outcome(calls, Failed(r.error))
        else Reported(m, cb, calls, Item(s[0], Content(s[1..], r.value)), s[1 + r.value.size + r.value.length..])
  {
    hide ParseLength;
  }

  method TraverseSequenceOf(m: Masks, cb: Callback, data: Bytes, p: nat, end: nat) returns (out: Outcome)
    requires p <= end <= |data|
    ensures out == Sequence(m, cb, data[p..end])
  {
    hide ParseTag, Content, Elements;
    var r, q := GetTag(data, p, end, TagSequence);
    if r.Err? { return Outcome([], Failed(r.error)); }
    if q + r.value != end { return Outcome([], Failed(LengthMismatch)); }
    out := TraverseElements(m, cb, data, q, end);
  }
}
