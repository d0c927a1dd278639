/** The binary compound package as a grammar: what a well-formed package is,
    stated without reference to the code that reads one. */
module BinFormat {
  import opened Platform

  const HEADER: seq<byte> := "_SifReferenceInstallerPackageHeader_"
  const FOOTER: seq<byte> := "_SifReferenceInstallerPackageFooter_"
  const BUFFER_LENGTH := 0x3FFC
  const MAX_EMBEDDED := 16
  const MAX_EMBEDDED_SIZE := 0xFFFFFF
  const MAX_PATH := 0x100

  /** One embedded component as it stands on the wire. The size field is kept
      apart from the body because a negative size that is a multiple of the
      buffer length is accepted and stands for an empty body. */
  datatype Item = Item(name: seq<byte>, size: int, body: seq<byte>)

  /** One package as it stands on the wire. The count field is kept apart from
      the items because a negative count is accepted and stands for none. */
  datatype Wire = Wire(text: seq<byte>, count: int, items: seq<Item>)

  predicate ValidItem(e: Item) {
    && |e.name| <= MAX_PATH
    && IsInt32(e.size) && e.size <= MAX_EMBEDDED_SIZE
    && (if e.size >= 0 then |e.body| == e.size else e.size % BUFFER_LENGTH == 0 && e.body == [])
  }

  predicate ValidItems(items: seq<Item>) {
    forall i :: 0 <= i < |items| ==> ValidItem(items[i])
  }

  predicate ValidWire(w: Wire) {
    && |w.text| <= BUFFER_LENGTH
    && IsInt32(w.count) && w.count <= MAX_EMBEDDED
    && |w.items| == (if w.count < 0 then 0 else w.count)
    && ValidItems(w.items)
  }

  function ItemBytes(e: Item): (r: seq<byte>)
    requires ValidItem(e)
    ensures |r| == 8 + |e.name| + |e.body|
  {
    Le32(|e.name|) + (e.name + (Le32(e.size) + e.body))
  }

  function ItemsBytes(items: seq<Item>): seq<byte>
    requires ValidItems(items)
  {
    if items == [] then [] else ItemBytes(items[0]) + ItemsBytes(items[1..])
  }

  function Bytes(w: Wire): seq<byte>
    requires ValidWire(w)
  {
    HEADER + (Le32(|w.text|) + (w.text + (Le32(w.count) + (ItemsBytes(w.items) + FOOTER))))
  }

  /** The wire form that the packaging script writes: every field says what follows. */
  function Canonical(text: seq<byte>, items: seq<Item>): Wire {
    Wire(text, |items|, items)
  }

  /** Names and bodies are all inside the package, with eight bytes to spare for each. */
  lemma ItemsFit(items: seq<Item>, i: nat)
    requires ValidItems(items) && i < |items|
    ensures |items[i].body| + |items[i].name| + 8 <= |ItemsBytes(items)|
  {
    if i > 0 {
      ItemsFit(items[1..], i - 1);
    }
  }

  lemma Le32Unique(n: int, m: int, x: seq<byte>, y: seq<byte>)
    requires IsInt32(n) && IsInt32(m) && Le32(n) + x == Le32(m) + y
    ensures n == m && x == y
  {
    hide Le32;
    Le32RoundTrip(n);
    Le32RoundTrip(m);
    assert Le32(n) == (Le32(n) + x)[..4] && Le32(m) == (Le32(m) + y)[..4];
    assert x == (Le32(n) + x)[4..] && y == (Le32(m) + y)[4..];
  }

  lemma SplitUnique(a: seq<byte>, b: seq<byte>, x: seq<byte>, y: seq<byte>)
    requires |a| == |b| && a + x == b + y
    ensures a == b && x == y
  {
    assert a == (a + x)[..|a|] && b == (b + y)[..|b|];
    assert x == (a + x)[|a|..] && y == (b + y)[|b|..];
  }

  lemma ItemUnique(a: Item, b: Item, x: seq<byte>, y: seq<byte>)
    requires ValidItem(a) && ValidItem(b) && ItemBytes(a) + x == ItemBytes(b) + y
    ensures a == b && x == y
  {
    hide Le32;
    assert ItemBytes(a) + x == Le32(|a.name|) + (a.name + (Le32(a.size) + (a.body + x)));
    assert ItemBytes(b) + y == Le32(|b.name|) + (b.name + (Le32(b.size) + (b.body + y)));
    Le32Unique(|a.name|, |b.name|, a.name + (Le32(a.size) + (a.body + x)), b.name + (Le32(b.size) + (b.body + y)));
    SplitUnique(a.name, b.name, Le32(a.size) + (a.body + x), Le32(b.size) + (b.body + y));
    Le32Unique(a.size, b.size, a.body + x, b.body + y);
    SplitUnique(a.body, b.body, x, y);
  }

  lemma {:induction false} ItemsUnique(a: seq<Item>, b: seq<Item>, x: seq<byte>, y: seq<byte>)
    requires ValidItems(a) && ValidItems(b) && |a| == |b|
    requires ItemsBytes(a) + x == ItemsBytes(b) + y
    ensures a == b && x == y
    decreases |a|
  {
    hide ItemBytes, ValidItem;
    if a == [] {
      assert x == ItemsBytes(a) + x && y == ItemsBytes(b) + y;
    } else {
      assert ItemsBytes(a) + x == ItemBytes(a[0]) + (ItemsBytes(a[1..]) + x);
      assert ItemsBytes(b) + y == ItemBytes(b[0]) + (ItemsBytes(b[1..]) + y);
      ItemUnique(a[0], b[0], ItemsBytes(a[1..]) + x, ItemsBytes(b[1..]) + y);
      ItemsUnique(a[1..], b[1..], x, y);
      assert a == [a[0]] + a[1..] && b == [b[0]] + b[1..];
    }
  }

  /** The format is unambiguous: no data starts with two different packages. */
  lemma WireUnique(a: Wire, b: Wire, x: seq<byte>, y: seq<byte>)
    requires ValidWire(a) && ValidWire(b) && Bytes(a) + x == Bytes(b) + y
    ensures a == b && x == y
  {
    hide Le32, ItemsBytes;
    var (a4, b4) := (ItemsBytes(a.items) + (FOOTER + x), ItemsBytes(b.items) + (FOOTER + y));
    var (a3, b3) := (Le32(a.count) + a4, Le32(b.count) + b4);
    var (a2, b2) := (a.text + a3, b.text + b3);
    var (a1, b1) := (Le32(|a.text|) + a2, Le32(|b.text|) + b2);
    assert Bytes(a) + x == HEADER + a1;
    assert Bytes(b) + y == HEADER + b1;
    SplitUnique(HEADER, HEADER, a1, b1);
    Le32Unique(|a.text|, |b.text|, a2, b2);
    SplitUnique(a.text, b.text, a3, b3);
    Le32Unique(a.count, b.count, a4, b4);
    ItemsUnique(a.items, b.items, FOOTER + x, FOOTER + y);
    SplitUnique(FOOTER, FOOTER, x, y);
  }
}
