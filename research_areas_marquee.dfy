/** The two marquee rows of src/components/landing/research-areas-marquee.tsx:
    the list of research areas cut in half, the first row taking the extra
    area when the count is odd. */
module ResearchAreasMarquee {

  /** `half = Math.ceil(areas.length / 2)`, `areas.slice(0, half)` and
      `areas.slice(half)`. */
  function SplitRows(areas: seq<string>): (rows: (seq<string>, seq<string>))
    ensures rows.0 + rows.1 == areas
    ensures |rows.0| == (|areas| + 1) / 2
    ensures |rows.0| - |rows.1| in {0, 1}
    ensures areas == [] ==> rows.0 == [] && rows.1 == []
  {
    var half := (|areas| + 1) / 2;
    (areas[..half], areas[half..])
  }
}
