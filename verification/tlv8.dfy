/** The pairing protocol's type-length-value codec: one length byte, so a longer
    value travels as consecutive fragments of the same type. */
module Tlv8 {
  import opened Basics

  datatype Item = Item(tag: byte, value: Bytes)

  // ----------------------------------------------------------- specification

  function Fragment(tag: byte, chunk: Bytes): Bytes
    requires |chunk| <= 255
  {
    [tag, |chunk| as byte] + chunk
  }

  function Fragments(tag: byte, value: Bytes): Bytes
    decreases |value|
  {
    if |value| <= 255 then Fragment(tag, value)
    else Fragment(tag, value[..255]) + Fragments(tag, value[255..])
  }

  function Encoded(items: seq<Item>): Bytes {
    if items == [] then [] else Fragments(items[0].tag, items[0].value) + Encoded(items[1..])
  }

  /** An item that could have been cut there, followed by something of its type. */
  predicate Open(item: Item, tag: byte) {
    item.tag == tag && |item.value| % 255 == 0 && item.value != []
  }

  /** A fragment continues the last item when that item, as accumulated so far, is
      open to it. */
  predicate Continues(items: seq<Item>, tag: byte) {
    items != [] && Open(items[|items| - 1], tag)
  }

  function Absorb(items: seq<Item>, tag: byte, chunk: Bytes): (r: seq<Item>)
    ensures r != []
  {
    if Continues(items, tag) then
      items[..|items| - 1] + [Item(tag, items[|items| - 1].value + chunk)]
    else items + [Item(tag, chunk)]
  }

  /** Whether a whole fragment is at the front of the input. */
  predicate Complete(data: Bytes) {
    |data| >= 2 && 2 + data[1] as int <= |data|
  }

  function DecodeOnto(items: seq<Item>, data: Bytes): seq<Item>
    decreases |data|
  {
    if !Complete(data) then items
    else
      var end := 2 + data[1] as int;
      DecodeOnto(Absorb(items, data[0], data[2..end]), data[end..])
  }

  function Decoded(data: Bytes): seq<Item> {
    DecodeOnto([], data)
  }

  /** Of several items of one type the first one's value counts. */
  function Find(items: seq<Item>, tag: byte): Option<Bytes> {
    if items == [] then None
    else if items[0].tag == tag then Some(items[0].value)
    else Find(items[1..], tag)
  }

  // ------------------------------------------------------------------- loops

  method EncodeValue(tag: byte, value: Bytes) returns (out: Bytes)
    ensures out == Fragments(tag, value)
  {
    if |value| == 0 {
      return [tag, 0];
    }
    out := [];
    var offset := 0;
    while offset < |value|
      invariant 0 <= offset <= |value|
      invariant out + (if offset < |value| then Fragments(tag, value[offset..]) else []) == Fragments(tag, value)
    {
      var fragment := Min(255, |value| - offset);
      ghost var left := value[offset..];
      assert left[..fragment] == value[offset..offset + fragment];
      assert left[fragment..] == value[offset + fragment..];
      out := out + Fragment(tag, value[offset..offset + fragment]);
      offset := offset + fragment;
    }
  }

  method Encode(items: seq<Item>) returns (out: Bytes)
    ensures out == Encoded(items)
  {
    out := [];
    for i := 0 to |items|
      invariant out + Encoded(items[i..]) == Encoded(items)
    {
      var bytes := EncodeValue(items[i].tag, items[i].value);
      assert items[i..][1..] == items[i + 1..];
      out := out + bytes;
    }
  }

  /** One whole item at `offset` is absorbed; the rest of the bytes follow. */
  lemma DecodeStep(items: seq<Item>, data: Bytes, offset: nat, end: nat, after: seq<Item>)
    requires offset + 2 <= |data| && end == offset + 2 + data[offset + 1] as int && end <= |data|
    requires after == Absorb(items, data[offset], data[offset + 2..end])
    ensures DecodeOnto(items, data[offset..]) == DecodeOnto(after, data[end..])
  {
    var front := data[offset..];
    assert front[2..end - offset] == data[offset + 2..end] && front[end - offset..] == data[end..];
  }

  /** Anything short of a whole item ends the list. */
  lemma DecodeStops(items: seq<Item>, data: Bytes, offset: nat)
    requires offset <= |data|
    requires offset + 2 > |data| || offset + 2 + data[offset + 1] as int > |data|
    ensures DecodeOnto(items, data[offset..]) == items
  {
  }

  /** The loop body: one chunk, which continues the last item or starts its own; the
      place does not move when the item is cut short. */
  method DecodeOne(data: Bytes, offset: nat, before: seq<Item>) returns (items: seq<Item>, end: nat)
    requires offset + 2 <= |data|
    ensures offset <= end <= |data| && DecodeOnto(items, data[end..]) == DecodeOnto(before, data[offset..])
    ensures end == offset ==> DecodeOnto(items, data[end..]) == items
  {
    var tag, length := data[offset], data[offset + 1] as int;
    items, end := before, offset + 2 + length;
    if end > |data| {
      end := offset;
      DecodeStops(items, data, offset);
      return;
    }
    var chunk := data[offset + 2..end];
    if |items| > 0 && items[|items| - 1].tag == tag && |items[|items| - 1].value| % 255 == 0 && |items[|items| - 1].value| > 0 {
      items := items[|items| - 1 := Item(tag, items[|items| - 1].value + chunk)];
    } else {
      items := items + [Item(tag, chunk)];
    }
    DecodeStep(before, data, offset, end, items);
  }

  method Decode(data: Bytes) returns (items: seq<Item>)
    ensures items == Decoded(data)
  {
    items := [];
    var offset := 0;
    assert data[0..] == data;
    while offset + 2 <= |data|
      invariant 0 <= offset <= |data|
      invariant DecodeOnto(items, data[offset..]) == Decoded(data)
    {
      var more, end := DecodeOne(data, offset, items);
      items := more;
      if end == offset {
        return;
      }
      offset := end;
    }
    DecodeStops(items, data, offset);
  }

  /** A value takes two bytes more for every 255 of its own, begun or whole. */
  lemma {:induction false} WireSize(tag: byte, value: Bytes)
    ensures |Fragments(tag, value)| == |value| + 2 * if value == [] then 1 else (|value| + 254) / 255
    decreases |value|
  {
    if |value| > 255 {
      WireSize(tag, value[255..]);
    }
  }

  // -------------------------------------------------------- the canonical form

  /** The items with each one merged into its predecessor exactly when the types
      match and the predecessor, as accumulated, has a non-zero length divisible
      by 255. */
  function Merged(acc: seq<Item>, items: seq<Item>): seq<Item>
    decreases |items|
  {
    if items == [] then acc else Merged(Absorb(acc, items[0].tag, items[0].value), items[1..])
  }

  ghost predicate Normal(items: seq<Item>) {
    forall i, j :: 0 <= i < j < |items| && j == i + 1 ==> !Open(items[i], items[j].tag)
  }

  lemma DecodeFragment(acc: seq<Item>, tag: byte, chunk: Bytes, rest: Bytes)
    requires |chunk| <= 255
    ensures DecodeOnto(acc, Fragment(tag, chunk) + rest) == DecodeOnto(Absorb(acc, tag, chunk), rest)
  {
    var data := Fragment(tag, chunk) + rest;
    assert data[2..2 + |chunk|] == chunk && data[2 + |chunk|..] == rest;
  }

  /** Cutting a value at a fragment boundary makes no difference to where it lands. */
  lemma AbsorbCut(acc: seq<Item>, tag: byte, value: Bytes)
    requires |value| > 255
    ensures Absorb(Absorb(acc, tag, value[..255]), tag, value[255..]) == Absorb(acc, tag, value)
  {
    var once := Absorb(acc, tag, value[..255]);
    assert value[..255] + value[255..] == value;
    if Continues(acc, tag) {
      var last := acc[|acc| - 1].value;
      assert (last + value[..255]) + value[255..] == last + value;
      assert Continues(once, tag);
      assert once[..|once| - 1] == acc[..|acc| - 1];
    } else {
      assert once[..|once| - 1] == acc;
    }
  }

  lemma {:induction false} DecodeFragments(acc: seq<Item>, tag: byte, value: Bytes, rest: Bytes)
    ensures DecodeOnto(acc, Fragments(tag, value) + rest) == DecodeOnto(Absorb(acc, tag, value), rest)
    decreases |value|
  {
    if |value| <= 255 {
      DecodeFragment(acc, tag, value, rest);
    } else {
      var first, more := value[..255], Fragments(tag, value[255..]);
      assert Fragments(tag, value) + rest == Fragment(tag, first) + (more + rest);
      DecodeFragment(acc, tag, first, more + rest);
      DecodeFragments(Absorb(acc, tag, first), tag, value[255..], rest);
      AbsorbCut(acc, tag, value);
    }
  }

  lemma {:induction false} DecodeEncodedOnto(acc: seq<Item>, items: seq<Item>)
    ensures DecodeOnto(acc, Encoded(items)) == Merged(acc, items)
    decreases |items|
  {
    if items != [] {
      DecodeFragments(acc, items[0].tag, items[0].value, Encoded(items[1..]));
      DecodeEncodedOnto(Absorb(acc, items[0].tag, items[0].value), items[1..]);
    }
  }

  /** Decoding an encoding gives the items back, merged exactly where the wire form
      cannot tell two items from one. */
  lemma DecodeEncode(items: seq<Item>)
    ensures Decoded(Encoded(items)) == Merged([], items)
  {
    DecodeEncodedOnto([], items);
  }

  lemma AbsorbNormal(items: seq<Item>, tag: byte, chunk: Bytes)
    requires Normal(items)
    ensures Normal(Absorb(items, tag, chunk))
  {
  }

  lemma {:induction false} DecodeOntoNormal(items: seq<Item>, data: Bytes)
    requires Normal(items)
    ensures Normal(DecodeOnto(items, data))
    decreases |data|
  {
    if Complete(data) {
      var end := 2 + data[1] as int;
      AbsorbNormal(items, data[0], data[2..end]);
      DecodeOntoNormal(Absorb(items, data[0], data[2..end]), data[end..]);
    }
  }

  /** Merging changes a list exactly when it is not in normal form. */
  lemma {:induction false} MergedKeepsNormal(acc: seq<Item>, items: seq<Item>)
    requires Normal(acc + items)
    ensures Merged(acc, items) == acc + items
    decreases |items|
  {
    if items == [] {
      assert acc + items == acc;
    } else {
      var whole := acc + items;
      if acc != [] {
        assert whole[|acc| - 1] == acc[|acc| - 1] && whole[|acc|] == items[0];
      }
      assert Absorb(acc, items[0].tag, items[0].value) == acc + [items[0]];
      assert acc + [items[0]] + items[1..] == whole;
      MergedKeepsNormal(acc + [items[0]], items[1..]);
    }
  }

  lemma {:induction false} MergedNormal(acc: seq<Item>, items: seq<Item>)
    requires Normal(acc)
    ensures Normal(Merged(acc, items))
    decreases |items|
  {
    if items != [] {
      AbsorbNormal(acc, items[0].tag, items[0].value);
      MergedNormal(Absorb(acc, items[0].tag, items[0].value), items[1..]);
    }
  }

  /** A list survives the wire unchanged if and only if it is in normal form. */
  lemma RoundTripIffNormal(items: seq<Item>)
    ensures Decoded(Encoded(items)) == items <==> Normal(items)
  {
    DecodeEncode(items);
    MergedNormal([], items);
    if Normal(items) {
      assert [] + items == items;
      MergedKeepsNormal([], items);
    }
  }

  /** Whatever the bytes, truncated or not, what they decode to is in normal form
      and so survives being encoded and decoded again. */
  lemma DecodeIsCanonical(data: Bytes)
    ensures Normal(Decoded(data))
    ensures Decoded(Encoded(Decoded(data))) == Decoded(data)
  {
    DecodeOntoNormal([], data);
    RoundTripIffNormal(Decoded(data));
  }
}
