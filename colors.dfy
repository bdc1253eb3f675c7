/** Colour comparison and the overlap-mixing table of the clock face (src/main.c:36-61). */
module Colors {
  import opened Types

  /** `compare_colors` as written: 0 for "equal", -1 otherwise. Its green test
      compares `colorA.g` with itself, so green never takes part. */
  function CompareColors(x: GColor, y: GColor): (r: int)
    ensures r == 0 || r == -1
  {
    if x.r == y.r && x.b == y.b && x.g == x.g && x.a == y.a then 0 else -1
  }

  /** As written, two colours compare equal exactly when they agree once green is ignored. */
  lemma CompareIgnoresGreen(x: GColor, y: GColor)
    ensures CompareColors(x, y) == 0 <==> x.(g := y.g) == y
  {
  }

  lemma CompareReflexive(x: GColor)
    ensures CompareColors(x, x) == 0
  {
  }

  lemma CompareSymmetric(x: GColor, y: GColor)
    ensures CompareColors(x, y) == CompareColors(y, x)
  {
  }

  /** Two distinct colours that differ only in green compare equal. */
  lemma CompareMissesGreen()
    ensures GColor(0, 0, 2, 3) != GColor(0, 1, 2, 3)
    ensures CompareColors(GColor(0, 0, 2, 3), GColor(0, 1, 2, 3)) == 0
  {
  }

  /** `compare_colors` with the green test comparing the two colours' green channels. */
  function CompareColorsFixed(x: GColor, y: GColor): (r: int)
    ensures r == 0 || r == -1
    ensures r == 0 <==> x == y
  {
    if x.r == y.r && x.b == y.b && x.g == y.g && x.a == y.a then 0 else -1
  }

  /** The two comparisons differ exactly on the pairs that agree except in green. */
  lemma CompareFixedDiffers(x: GColor, y: GColor)
    ensures CompareColors(x, y) != CompareColorsFixed(x, y) <==> x != y && x.(g := y.g) == y
  {
  }

  /** `mix_colors`: the colour painted where the segments coloured `x` and `y` overlap. */
  function MixColors(p: Palette, x: GColor, y: GColor): (r: GColor)
    ensures r == p.purple || r == p.orange || r == p.green || r == p.all
  {
    if (CompareColors(x, p.red) == 0 && CompareColors(y, p.blue) == 0)
       || (CompareColors(x, p.blue) == 0 && CompareColors(y, p.red) == 0) then p.purple
    else if (CompareColors(x, p.red) == 0 && CompareColors(y, p.yellow) == 0)
       || (CompareColors(x, p.yellow) == 0 && CompareColors(y, p.red) == 0) then p.orange
    else if (CompareColors(x, p.green) == 0 && CompareColors(y, p.blue) == 0)
       || (CompareColors(x, p.blue) == 0 && CompareColors(y, p.green) == 0) then p.green
    else p.all
  }

  /** `mix_colors` built on the corrected comparison. */
  function MixColorsFixed(p: Palette, x: GColor, y: GColor): (r: GColor)
    ensures r == p.purple || r == p.orange || r == p.green || r == p.all
  {
    if (CompareColorsFixed(x, p.red) == 0 && CompareColorsFixed(y, p.blue) == 0)
       || (CompareColorsFixed(x, p.blue) == 0 && CompareColorsFixed(y, p.red) == 0) then p.purple
    else if (CompareColorsFixed(x, p.red) == 0 && CompareColorsFixed(y, p.yellow) == 0)
       || (CompareColorsFixed(x, p.yellow) == 0 && CompareColorsFixed(y, p.red) == 0) then p.orange
    else if (CompareColorsFixed(x, p.green) == 0 && CompareColorsFixed(y, p.blue) == 0)
       || (CompareColorsFixed(x, p.blue) == 0 && CompareColorsFixed(y, p.green) == 0) then p.green
    else p.all
  }

  /** Every rule of `mix_colors` tests both orders, so mixing is order-independent. */
  lemma MixSymmetric(p: Palette, x: GColor, y: GColor)
    ensures MixColors(p, x, y) == MixColors(p, y, x)
  {
    CompareSymmetric(x, y);
  }

  /** The mixing table on palette names, as an unordered-pair lookup. */
  function MixByName(x: Entry, y: Entry): (r: Entry)
    ensures r in {Purple, Orange, Green, All}
  {
    if {x, y} == {Red, Blue} then Purple
    else if {x, y} == {Red, Yellow} then Orange
    else if {x, y} == {Green, Blue} then Green
    else All
  }

  /** The entries the mixing rules test against. */
  predicate Mixable(e: Entry) {
    e == Red || e == Yellow || e == Blue || e == Green
  }

  /** The palette's mixable colours are told apart, by the comparison as written,
      from every other palette entry. Neither palette the face ships satisfies this:
      on the colour palette, green and `all` differ only in green, and so do yellow
      and orange (`ColorPaletteMixes`); on the black-and-white palette, red, yellow
      and blue are all gray. */
  predicate DistinctForMix(p: Palette) {
    forall e: Entry, f: Entry :: Mixable(e) && e != f ==> CompareColors(p.Get(e), p.Get(f)) != 0
  }

  /** The palette's mixable colours differ from every other palette entry. */
  predicate Distinct(p: Palette) {
    forall e: Entry, f: Entry :: Mixable(e) && e != f ==> p.Get(e) != p.Get(f)
  }

  /** Told apart by the comparison as written means different. */
  lemma DistinctForMixIsDistinct(p: Palette)
    requires DistinctForMix(p)
    ensures Distinct(p)
  {
    forall e: Entry, f: Entry | Mixable(e) && e != f
      ensures p.Get(e) != p.Get(f)
    {
      CompareReflexive(p.Get(e));
    }
  }

  /** On such a palette, a palette colour compares equal to a mixable one only if it is that entry. */
  lemma DistinctCompare(p: Palette, e: Entry, f: Entry)
    requires DistinctForMix(p) && Mixable(f)
    ensures CompareColors(p.Get(e), p.Get(f)) == 0 <==> e == f
    ensures CompareColorsFixed(p.Get(e), p.Get(f)) == 0 <==> e == f
  {
    if e != f {
      assert CompareColors(p.Get(f), p.Get(e)) != 0;
      CompareSymmetric(p.Get(e), p.Get(f));
    }
  }

  /** The unordered pairs of the table, spelled out. */
  lemma MixByNameCases(x: Entry, y: Entry)
    ensures MixByName(x, y) == Purple <==> (x == Red && y == Blue) || (x == Blue && y == Red)
    ensures MixByName(x, y) == Orange <==> (x == Red && y == Yellow) || (x == Yellow && y == Red)
    ensures MixByName(x, y) == Green <==> (x == Green && y == Blue) || (x == Blue && y == Green)
  {
    if {x, y} == {Red, Blue} { assert x in {Red, Blue} && y in {Red, Blue} && Red in {x, y}; }
    if {x, y} == {Red, Yellow} { assert x in {Red, Yellow} && y in {Red, Yellow} && Red in {x, y}; }
    if {x, y} == {Green, Blue} { assert x in {Green, Blue} && y in {Green, Blue} && Green in {x, y}; }
  }

  /** Given a palette whose mixable colours are distinct, `mix_colors` on two palette
      colours follows the unordered-pair table: {red, blue} gives purple, {red, yellow}
      orange, {green, blue} green, and every other pair, identical ones included, all. */
  lemma MixTable(p: Palette, x: Entry, y: Entry)
    requires DistinctForMix(p)
    ensures MixColors(p, p.Get(x), p.Get(y)) == p.Get(MixByName(x, y))
  {
    DistinctCompare(p, x, Red);
    DistinctCompare(p, x, Yellow);
    DistinctCompare(p, x, Blue);
    DistinctCompare(p, x, Green);
    DistinctCompare(p, y, Red);
    DistinctCompare(p, y, Yellow);
    DistinctCompare(p, y, Blue);
    DistinctCompare(p, y, Green);
    MixByNameCases(x, y);
  }

  /** With the corrected comparison it is enough that the mixable colours differ
      from the other entries, which the colour palette satisfies. */
  lemma DistinctFixedCompare(p: Palette, e: Entry, f: Entry)
    requires Distinct(p) && Mixable(f)
    ensures CompareColorsFixed(p.Get(e), p.Get(f)) == 0 <==> e == f
  {
  }

  /** The same table holds for the corrected mix, on every palette whose mixable
      colours differ from the other entries. */
  lemma MixTableFixed(p: Palette, x: Entry, y: Entry)
    requires Distinct(p)
    ensures MixColorsFixed(p, p.Get(x), p.Get(y)) == p.Get(MixByName(x, y))
  {
    DistinctFixedCompare(p, x, Red);
    DistinctFixedCompare(p, x, Yellow);
    DistinctFixedCompare(p, x, Blue);
    DistinctFixedCompare(p, x, Green);
    DistinctFixedCompare(p, y, Red);
    DistinctFixedCompare(p, y, Yellow);
    DistinctFixedCompare(p, y, Blue);
    DistinctFixedCompare(p, y, Green);
    MixByNameCases(x, y);
  }

  /** On a palette whose mixable colours are told apart as written, the defect in
      `compare_colors` does not change what `mix_colors` returns on palette colours. */
  lemma MixAgreesWithFixed(p: Palette, x: Entry, y: Entry)
    requires DistinctForMix(p)
    ensures MixColors(p, p.Get(x), p.Get(y)) == MixColorsFixed(p, p.Get(x), p.Get(y))
  {
    MixTable(p, x, y);
    DistinctForMixIsDistinct(p);
    MixTableFixed(p, x, y);
  }

  /** The colour palette of `window_load`, as 2-bit channels (r, g, b, a):
      DarkCandyAppleRed, ChromeYellow, DukeBlue, Orange, DarkGreen, ImperialPurple,
      and Black for both `all` and `none`. */
  const ColorPalette: Palette :=
    Palette(GColor(2, 0, 0, 3), GColor(3, 2, 0, 3), GColor(0, 0, 2, 3),
            GColor(3, 1, 0, 3), GColor(0, 1, 0, 3), GColor(1, 0, 1, 3),
            GColor(0, 0, 0, 3), GColor(0, 0, 0, 3))

  /** The four colours the mixing rules test against, pairwise told apart by the
      comparison as written. */
  predicate RulesApart(p: Palette) {
    forall e: Entry, f: Entry :: Mixable(e) && Mixable(f) && e != f ==> CompareColors(p.Get(e), p.Get(f)) != 0
  }

  /** The segments' own colours are red, yellow and blue. */
  predicate SegmentEntry(e: Entry) {
    e == Red || e == Yellow || e == Blue
  }

  lemma ApartCompare(p: Palette, e: Entry, f: Entry)
    requires RulesApart(p) && Mixable(e) && Mixable(f)
    ensures CompareColors(p.Get(e), p.Get(f)) == 0 <==> e == f
    ensures CompareColorsFixed(p.Get(e), p.Get(f)) == 0 <==> e == f
  {
    CompareReflexive(p.Get(e));
  }

  /** On segment colours, told apart from each other and from green as written, both
      mixes follow the table. This is what `draw_color_ring` passes to `mix_colors`. */
  lemma MixSegmentColors(p: Palette, x: Entry, y: Entry)
    requires RulesApart(p) && SegmentEntry(x) && SegmentEntry(y)
    ensures MixColors(p, p.Get(x), p.Get(y)) == p.Get(MixByName(x, y))
    ensures MixColorsFixed(p, p.Get(x), p.Get(y)) == p.Get(MixByName(x, y))
  {
    ApartCompare(p, x, Red);
    ApartCompare(p, x, Yellow);
    ApartCompare(p, x, Blue);
    ApartCompare(p, x, Green);
    ApartCompare(p, y, Red);
    ApartCompare(p, y, Yellow);
    ApartCompare(p, y, Blue);
    ApartCompare(p, y, Green);
    MixByNameCases(x, y);
  }

  /** On the colour palette the program ships, the rules' colours are told apart but
      the palette fails `DistinctForMix`. Its mixes of segment colours are unaffected
      by the defect, yet on other palette colours the defect shows: `all` with blue
      mixes to green and orange with red to orange, where the corrected mix gives `all`. */
  lemma ColorPaletteMixes()
    ensures var p := ColorPalette;
      && RulesApart(p) && Distinct(p) && !DistinctForMix(p)
      && MixColors(p, p.all, p.blue) == p.green && MixColorsFixed(p, p.all, p.blue) == p.all
      && MixColors(p, p.orange, p.red) == p.orange && MixColorsFixed(p, p.orange, p.red) == p.all
  {
    var p := ColorPalette;
    assert p.Get(Green) == p.green && p.Get(All) == p.all;
    assert CompareColors(p.Get(Green), p.Get(All)) == 0;
  }

  /** A colour outside the palette that differs from red only in green mixes with blue
      to purple as written, and to `all` once the comparison is corrected. */
  lemma MixMissesGreen()
    ensures MixColors(ColorPalette, GColor(2, 3, 0, 3), ColorPalette.blue) == ColorPalette.purple
    ensures MixColorsFixed(ColorPalette, GColor(2, 3, 0, 3), ColorPalette.blue) == ColorPalette.all
  {
  }

  /** On the black-and-white palette red, yellow and blue are one colour, and the
      first rule of `mix_colors` then turns every such pair into purple. */
  lemma MixOnGrayPalette(p: Palette)
    requires p.red == p.yellow == p.blue
    ensures MixColors(p, p.red, p.yellow) == p.purple
    ensures MixColors(p, p.blue, p.blue) == p.purple
  {
  }
}
