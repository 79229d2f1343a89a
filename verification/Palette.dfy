/** The colour palette of palette.cpp: an open-addressed table, and the indexed rows of protocol.cpp made with it. */
module Palette {
  import opened Collections

  const TABLE := 0x1000
  const COLOURS := 0x100_0000
  const CAPACITY := 256

  predicate IsColour(c: int) { 0 <= c < COLOURS }

  function Pow2(n: nat): nat { if n == 0 then 1 else 2 * Pow2(n - 1) }

  /** The exclusive or of the n lowest bits. */
  function Xor(a: nat, b: nat, n: nat): (r: nat)
    ensures r < Pow2(n)
  {
    if n == 0 then 0 else 2 * Xor(a / 2, b / 2, n - 1) + (a + b) % 2
  }

  /** ((color & 0xFFF000) >> 12) ^ (color & 0xFFF) */
  function Hash(c: int): (h: int)
    requires IsColour(c)
    ensures 0 <= h < TABLE
  {
    assert Pow2(12) == TABLE;
    Xor(c / 0x1000, c % 0x1000, 12)
  }

  /** The e-th place tried for a colour. */
  function Slot(c: int, e: nat): (s: int)
    ensures 0 <= s < TABLE
  {
    if e > 0 then Next(Slot(c, e - 1)) else if IsColour(c) then Hash(c) else 0
  }

  /** (hash + 1) & 0xFFF */
  function Next(hash: int): int { if hash + 1 == TABLE then 0 else hash + 1 }

  lemma {:induction false} SlotIs(c: int, e: nat)
    ensures Slot(c, e) == (Slot(c, 0) + e) % TABLE
  {
    if e > 0 { SlotIs(c, e - 1); }
  }

  lemma SlotsDiffer(c: int, d: nat, e: nat)
    requires d < e < TABLE
    ensures Slot(c, d) != Slot(c, e)
  {
    SlotIs(c, d);
    SlotIs(c, e);
    var h := Slot(c, 0);
    var a, b := (h + e) / TABLE, (h + d) / TABLE;
    assert Slot(c, e) - Slot(c, d) == e - d - (a - b) * TABLE;
  }

  /** guac_palette_entry; index 0 marks a free one. */
  datatype Entry = Entry(index: int, colour: int)

  /**
   * The table holds the k-th stored colour with index k + 1, at the end of a run of taken entries that begins
   * at its hash; and it holds nothing else.
   */
  ghost predicate Holds(entries: seq<Entry>, stored: seq<int>, dist: seq<nat>) {
    && |entries| == TABLE && |dist| == |stored| <= CAPACITY
    && Stand(entries, stored, dist) && Reached(entries, stored, dist) && NothingElse(entries, stored, dist)
  }

  ghost predicate Stand(entries: seq<Entry>, stored: seq<int>, dist: seq<nat>)
    requires |entries| == TABLE && |dist| == |stored|
  {
    forall k :: 0 <= k < |stored| ==> entries[Slot(stored[k], dist[k])] == Entry(k + 1, stored[k])
  }

  ghost predicate Reached(entries: seq<Entry>, stored: seq<int>, dist: seq<nat>)
    requires |entries| == TABLE && |dist| == |stored|
  {
    forall k, e :: 0 <= k < |stored| && 0 <= e < dist[k] ==> entries[Slot(stored[k], e)].index != 0
  }

  ghost predicate NothingElse(entries: seq<Entry>, stored: seq<int>, dist: seq<nat>)
    requires |entries| == TABLE && |dist| == |stored|
  {
    forall s :: 0 <= s < TABLE && entries[s].index != 0 ==>
      1 <= entries[s].index <= |stored| && Slot(stored[entries[s].index - 1], dist[entries[s].index - 1]) == s
  }

  lemma Empty(entries: seq<Entry>)
    requires |entries| == TABLE && forall s :: 0 <= s < TABLE ==> entries[s] == Entry(0, 0)
    ensures Holds(entries, [], [])
  {}

  /** The first e places tried for a colour are taken, and not by it. */
  ghost predicate Tried(entries: seq<Entry>, c: int, e: nat)
    requires |entries| == TABLE
  {
    forall d :: 0 <= d < e ==> entries[Slot(c, d)].index != 0 && entries[Slot(c, d)].colour != c
  }

  lemma TriedMore(entries: seq<Entry>, c: int, e: nat)
    requires |entries| == TABLE && Tried(entries, c, e)
    requires entries[Slot(c, e)].index != 0 && entries[Slot(c, e)].colour != c
    ensures Tried(entries, c, e + 1)
  {}

  /** A free place ends the search: the colour is not stored. */
  lemma Absent(entries: seq<Entry>, stored: seq<int>, dist: seq<nat>, c: int, e: nat)
    requires Holds(entries, stored, dist) && Tried(entries, c, e) && entries[Slot(c, e)].index == 0
    ensures c !in stored
  {
    forall k | 0 <= k < |stored| ensures stored[k] != c {
      assert entries[Slot(stored[k], dist[k])] == Entry(k + 1, stored[k]);
    }
  }

  /** A place with the colour in it has the colour's index. */
  lemma Present(entries: seq<Entry>, stored: seq<int>, dist: seq<nat>, s: int)
    requires Holds(entries, stored, dist) && 0 <= s < TABLE && entries[s].index != 0
    ensures 1 <= entries[s].index <= |stored| && stored[entries[s].index - 1] == entries[s].colour
  {
    var k := entries[s].index - 1;
    assert entries[Slot(stored[k], dist[k])] == Entry(k + 1, stored[k]);
  }

  lemma AddedStand(entries: seq<Entry>, stored: seq<int>, dist: seq<nat>, c: int, e: nat)
    requires |entries| == TABLE && |dist| == |stored| && Stand(entries, stored, dist)
    requires entries[Slot(c, e)].index == 0
    ensures Stand(entries[Slot(c, e) := Entry(|stored| + 1, c)], stored + [c], dist + [e])
  {
    forall k | 0 <= k < |stored| ensures Slot(stored[k], dist[k]) != Slot(c, e) {
      assert entries[Slot(stored[k], dist[k])].index != 0;
    }
  }

  lemma AddedReached(entries: seq<Entry>, stored: seq<int>, dist: seq<nat>, c: int, e: nat)
    requires |entries| == TABLE && |dist| == |stored| && Reached(entries, stored, dist) && Tried(entries, c, e)
    ensures Reached(entries[Slot(c, e) := Entry(|stored| + 1, c)], stored + [c], dist + [e])
  {}

  lemma AddedNothingElse(entries: seq<Entry>, stored: seq<int>, dist: seq<nat>, c: int, e: nat)
    requires |entries| == TABLE && |dist| == |stored| && NothingElse(entries, stored, dist)
    ensures NothingElse(entries[Slot(c, e) := Entry(|stored| + 1, c)], stored + [c], dist + [e])
  {
    var stored', dist' := stored + [c], dist + [e];
    assert stored'[|stored|] == c && dist'[|stored|] == e;
    assert forall k :: 0 <= k < |stored| ==> stored'[k] == stored[k] && dist'[k] == dist[k];
  }

  /** A colour added at the free place where its search ended. */
  lemma Added(entries: seq<Entry>, stored: seq<int>, dist: seq<nat>, c: int, e: nat)
    requires Holds(entries, stored, dist) && Tried(entries, c, e) && |stored| < CAPACITY
    requires entries[Slot(c, e)].index == 0
    ensures Holds(entries[Slot(c, e) := Entry(|stored| + 1, c)], stored + [c], dist + [e])
  {
    AddedStand(entries, stored, dist, c, e);
    AddedReached(entries, stored, dist, c, e);
    AddedNothingElse(entries, stored, dist, c, e);
  }

  // ----- a search comes to an end

  lemma {:induction false} SlotsOf(c: int, n: nat) returns (slots: set<int>)
    requires n <= TABLE
    ensures |slots| == n && forall s :: s in slots ==> IsSlot(c, n, s)
  {
    if n == 0 { return {}; }
    var before := SlotsOf(c, n - 1);
    var last := Slot(c, n - 1);
    if last in before {
      var d :| 0 <= d < n - 1 && last == Slot(c, d);
      SlotsDiffer(c, d, n - 1);
      assert false;
    }
    slots := before + {last};
    forall s | s in before ensures IsSlot(c, n, s) {
      var d :| 0 <= d < n - 1 && s == Slot(c, d);
    }
  }

  /** One of the first n places tried for a colour. */
  ghost predicate IsSlot(c: int, n: nat, s: int) { exists d :: 0 <= d < n && s == Slot(c, d) }

  ghost function Taken(stored: seq<int>, dist: seq<nat>, n: nat): set<int>
    requires n <= |stored| == |dist|
  {
    if n == 0 then {} else Taken(stored, dist, n - 1) + {Slot(stored[n - 1], dist[n - 1])}
  }

  lemma {:induction false} TakenAre(stored: seq<int>, dist: seq<nat>, n: nat)
    requires n <= |stored| == |dist|
    ensures |Taken(stored, dist, n)| <= n && forall k :: 0 <= k < n ==>
      Slot(stored[k], dist[k]) in Taken(stored, dist, n)
  {
    if n > 0 { TakenAre(stored, dist, n - 1); }
  }

  /** No more places are taken than colours stored. */
  lemma TriedFew(entries: seq<Entry>, stored: seq<int>, dist: seq<nat>, c: int, e: nat)
    requires Holds(entries, stored, dist) && Tried(entries, c, e) && e <= TABLE
    ensures e <= |stored|
  {
    var slots := SlotsOf(c, e);
    TakenAre(stored, dist, |stored|);
    forall s | s in slots ensures s in Taken(stored, dist, |stored|) {
      var d :| 0 <= d < e && s == Slot(c, d);
      assert Slot(stored[entries[s].index - 1], dist[entries[s].index - 1]) == s;
    }
    Subset(slots, Taken(stored, dist, |stored|));
  }

  // ----- the palette

  datatype RGB = RGB(red: int, green: int, blue: int)

  function Packed(c: RGB): int { c.red * 0x1_0000 + c.green * 0x100 + c.blue }

  function Split(c: int): RGB { RGB(c / 0x1_0000 % 0x100, c / 0x100 % 0x100, c % 0x100) }

  lemma SplitPacked(c: int)
    requires IsColour(c)
    ensures Packed(Split(c)) == c
  {}

  class Palette {
    const entries: array<Entry>
    const colours: array<RGB>
    var size: nat
    ghost var stored: seq<int>
    ghost var dist: seq<nat>

    ghost predicate Valid()
      reads this, entries, colours
    {
      && Holds(entries[..], stored, dist) && NoDup(stored) && size == |stored|
      && colours.Length == CAPACITY && (forall k :: 0 <= k < size ==> Packed(colours[k]) == stored[k])
    }

    constructor ()
      ensures Valid() && stored == [] && fresh(entries) && fresh(colours)
    {
      entries := new Entry[TABLE](_ => Entry(0, 0));
      colours := new RGB[CAPACITY](_ => RGB(0, 0, 0));
      size, stored, dist := 0, [], [];
      new;
      Empty(entries[..]);
    }

    /** The loop that both guac_palette_alloc and guac_palette_find run: up to the colour or a free place. */
    method Search(c: int) returns (hash: int, ghost e: nat)
      requires Valid() && IsColour(c)
      ensures hash == Slot(c, e) && Tried(entries[..], c, e)
      ensures entries[hash].index == 0 || entries[hash].colour == c
    {
      hash, e := Hash(c), 0;
      while !(entries[hash].index == 0 || entries[hash].colour == c)
        invariant hash == Slot(c, e) && Tried(entries[..], c, e) && e <= size
        decreases size - e
      {
        TriedMore(entries[..], c, e);
        TriedFew(entries[..], stored, dist, c, e + 1);
        hash := Next(hash);
        e := e + 1;
      }
    }

    /** guac_palette_find: the place of a stored colour, and -1 for any other. */
    method Find(c: int) returns (index: int)
      requires Valid() && IsColour(c)
      ensures c !in stored ==> index == -1
      ensures c in stored ==> 0 <= index < size && stored[index] == c && Packed(colours[index]) == c
    {
      var hash, e := Search(c);
      if entries[hash].index == 0 {
        Absent(entries[..], stored, dist, c, e);
        return -1;
      }
      Present(entries[..], stored, dist, hash);
      return entries[hash].index - 1;
    }

    /** A colour is stored at the free place where its search ended. */
    method Store(c: int, hash: int, ghost e: nat)
      requires Valid() && IsColour(c) && c !in stored && size < CAPACITY
      requires hash == Slot(c, e) && Tried(entries[..], c, e) && entries[hash].index == 0
      modifies this, entries, colours
      ensures Valid() && stored == old(stored) + [c]
    {
      Added(entries[..], stored, dist, c, e);
      ghost var table := entries[..][hash := Entry(size + 1, c)];
      SplitPacked(c);
      colours[size] := Split(c);
      size := size + 1;
      entries[hash] := Entry(size, c);
      assert entries[..] == table;
      stored, dist := stored + [c], dist + [e];
    }

    /** What guac_palette_alloc does with one pixel: the colour is stored unless it was, or there is no room. */
    method Add(c: int) returns (ok: bool)
      requires Valid() && IsColour(c)
      modifies this, entries, colours
      ensures Valid()
      ensures ok <==> c in old(stored) || |old(stored)| < CAPACITY
      ensures stored == if ok && c !in old(stored) then old(stored) + [c] else old(stored)
    {
      var hash, e := Search(c);
      if entries[hash].index == 0 {
        Absent(entries[..], stored, dist, c, e);
        if size == CAPACITY { return false; }
        Store(c, hash, e);
      } else {
        Present(entries[..], stored, dist, hash);
      }
      ok := true;
    }
  }

  // ----- the palette of an image

  /** The 24 bits of a pixel that count. */
  function Colour(pixel: int): (c: int)
    ensures IsColour(c)
  {
    pixel % COLOURS
  }

  /** Some pixel before (x, y), row by row, has the colour. */
  ghost predicate Seen(image: array2<int>, y: int, x: int, c: int)
    reads image
  {
    exists j, i :: 0 <= j < image.Length0 && 0 <= i < image.Length1 && (j < y || (j == y && i < x)) &&
      Colour(image[j, i]) == c
  }

  ghost function Colours(image: array2<int>): set<int>
    reads image
  {
    set j, i | 0 <= j < image.Length0 && 0 <= i < image.Length1 :: Colour(image[j, i])
  }

  /** The colours of one row are added. */
  method AddRow(palette: Palette, image: array2<int>, y: nat) returns (ok: bool)
    requires palette.Valid() && y < image.Length0 && forall c :: c in palette.stored <==> Seen(image, y, 0, c)
    modifies palette, palette.entries, palette.colours
    ensures palette.Valid()
    ensures ok ==> forall c :: c in palette.stored <==> Seen(image, y + 1, 0, c)
    ensures !ok ==> |Colours(image)| > CAPACITY
  {
    for x := 0 to image.Length1
      invariant palette.Valid() && forall c :: c in palette.stored <==> Seen(image, y, x, c)
    {
      ghost var before := palette.stored;
      ok := palette.Add(Colour(image[y, x]));
      if !ok {
        TooMany(image, y, x, before, Colour(image[y, x]));
        return;
      }
      SeenStep(image, y, x, before, palette.stored);
    }
    NextRow(image, y);
    ok := true;
  }

  /** guac_palette_alloc: there is a palette, with the image's colours and no others, unless they are more than 256. */
  method Alloc(image: array2<int>) returns (palette: Palette?)
    ensures palette == null <==> |Colours(image)| > CAPACITY
    ensures palette != null ==> palette.Valid() && forall c :: c in palette.stored <==> c in Colours(image)
    ensures palette != null ==> palette.size == |Colours(image)|
  {
    var filled := new Palette();
    for y := 0 to image.Length0
      invariant filled.Valid() && fresh(filled) && fresh(filled.entries) && fresh(filled.colours)
      invariant forall c :: c in filled.stored <==> Seen(image, y, 0, c)
    {
      var ok := AddRow(filled, image, y);
      if !ok { return null; }
    }
    AllSeen(image, filled.stored);
    palette := filled;
  }

  lemma SeenMore(image: array2<int>, y: nat, x: nat)
    requires y < image.Length0 && x < image.Length1
    ensures forall c :: Seen(image, y, x + 1, c) <==> Seen(image, y, x, c) || c == Colour(image[y, x])
  {
    assert Seen(image, y, x + 1, Colour(image[y, x]));
    forall c | Seen(image, y, x, c) ensures Seen(image, y, x + 1, c) {
      var j, i :| 0 <= j < image.Length0 && 0 <= i < image.Length1 && (j < y || (j == y && i < x)) &&
        Colour(image[j, i]) == c;
      assert Colour(image[j, i]) == c;
    }
    forall c | Seen(image, y, x + 1, c) && c != Colour(image[y, x]) ensures Seen(image, y, x, c) {
      var j, i :| 0 <= j < image.Length0 && 0 <= i < image.Length1 && (j < y || (j == y && i < x + 1)) &&
        Colour(image[j, i]) == c;
      assert Colour(image[j, i]) == c;
    }
  }

  lemma SeenStep(image: array2<int>, y: nat, x: nat, before: seq<int>, after: seq<int>)
    requires y < image.Length0 && x < image.Length1 && forall c :: c in before <==> Seen(image, y, x, c)
    requires after == if Colour(image[y, x]) in before then before else before + [Colour(image[y, x])]
    ensures forall c :: c in after <==> Seen(image, y, x + 1, c)
  {
    SeenMore(image, y, x);
  }

  lemma NextRow(image: array2<int>, y: nat)
    ensures forall c :: Seen(image, y + 1, 0, c) <==> Seen(image, y, image.Length1, c)
  {}

  lemma AllSeen(image: array2<int>, stored: seq<int>)
    requires NoDup(stored) && forall c :: c in stored <==> Seen(image, image.Length0, 0, c)
    ensures |Colours(image)| == |stored| && forall c :: c in stored <==> c in Colours(image)
  {
    NoDupSize(stored);
    assert (set c | c in stored) == Colours(image);
  }

  lemma TooMany(image: array2<int>, y: nat, x: nat, stored: seq<int>, c: int)
    requires y < image.Length0 && x < image.Length1 && c == Colour(image[y, x])
    requires NoDup(stored) && c !in stored && |stored| == CAPACITY
    requires forall d :: d in stored <==> Seen(image, y, x, d)
    ensures |Colours(image)| > CAPACITY
  {
    var all := stored + [c];
    NoDupSize(all);
    forall d | d in all ensures d in Colours(image) {
      if d == c {
        assert Colour(image[y, x]) == d;
      } else {
        var j, i :| 0 <= j < image.Length0 && 0 <= i < image.Length1 && (j < y || (j == y && i < x)) &&
          Colour(image[j, i]) == d;
        assert Colour(image[j, i]) in Colours(image);
      }
    }
    Subset((set d | d in all), Colours(image));
  }

  // ----- indexed rows

  /** The bits per pixel chosen for a palette. */
  function BitsPerPixel(size: nat): nat {
    if size <= 2 then 1 else if size <= 4 then 2 else if size <= 16 then 4 else 8
  }

  /** Every index into a palette fits its bits per pixel. */
  lemma IndexFits(size: nat, index: nat)
    requires index < size <= CAPACITY
    ensures index <= Pow2(BitsPerPixel(size)) - 1
  {
    assert Pow2(8) == 256 && Pow2(4) == 16 && Pow2(2) == 4 && Pow2(1) == 2;
  }

  method Row(image: array2<int>, palette: Palette, rows: array2<int>, y: nat, bpp: nat)
    requires palette.Valid() && (forall c :: c in palette.stored <==> c in Colours(image))
    requires bpp == BitsPerPixel(palette.size) && rows != image
    requires y < image.Length0 == rows.Length0 && rows.Length1 == image.Length1
    modifies rows
    ensures forall i :: 0 <= i < image.Length1 ==> Indexed(palette, bpp, rows[y, i], image[y, i])
    ensures forall j, i :: 0 <= j < y && 0 <= i < image.Length1 ==> rows[j, i] == old(rows[j, i])
  {
    for x := 0 to image.Length1
      invariant forall j, i :: 0 <= j < y && 0 <= i < image.Length1 ==> rows[j, i] == old(rows[j, i])
      invariant forall i :: 0 <= i < x ==> Indexed(palette, bpp, rows[y, i], image[y, i])
    {
      var colour := Colour(image[y, x]);
      assert colour in Colours(image);
      var index := palette.Find(colour);
      IndexFits(palette.size, index);
      rows[y, x] := index;
    }
  }

  /** The rows handed to the PNG writer: looked up in the palette they give back the image. */
  method Rows(image: array2<int>, palette: Palette) returns (rows: array2<int>, bpp: nat)
    requires palette.Valid() && forall c :: c in palette.stored <==> c in Colours(image)
    ensures rows.Length0 == image.Length0 && rows.Length1 == image.Length1
    ensures forall j, i :: 0 <= j < image.Length0 && 0 <= i < image.Length1 ==>
      Indexed(palette, bpp, rows[j, i], image[j, i])
  {
    bpp := BitsPerPixel(palette.size);
    rows := new int[image.Length0, image.Length1];
    for y := 0 to image.Length0
      invariant forall j, i :: 0 <= j < y && 0 <= i < image.Length1 ==> Indexed(palette, bpp, rows[j, i], image[j, i])
    {
      Row(image, palette, rows, y, bpp);
    }
  }

  /** An index that fits and stands for a pixel's colour. */
  ghost predicate Indexed(palette: Palette, bpp: nat, index: int, pixel: int)
    reads palette, palette.colours
  {
    && 0 <= index < palette.size <= palette.colours.Length
    && index <= Pow2(bpp) - 1
    && Packed(palette.colours[index]) == Colour(pixel)
  }
}
