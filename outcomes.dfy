/** `ComparisonResult`: the nine outcomes of comparing two cells, their
    integer codes, the acceptable and unacceptable subsets and the colour
    pair each outcome paints. */
module Outcomes {

  datatype Outcome = Equals | Matching | Almost | Accepted | Omitted | Different | Corrupted | Shorter | Longer

  /** Every member, in declaration order. */
  const AllOutcomes: seq<Outcome> := [Equals, Matching, Almost, Accepted, Omitted, Different, Corrupted, Shorter, Longer]

  /** The `IntEnum` value of each member. */
  function Code(o: Outcome): nat {
    match o
    case Equals => 0
    case Matching => 1
    case Almost => 2
    case Accepted => 3
    case Omitted => 4
    case Different => 8
    case Corrupted => 9
    case Shorter => 10
    case Longer => 11
  }

  /** The member's `name`. */
  function Name(o: Outcome): string {
    match o
    case Equals => "EQUALS"
    case Matching => "MATCHING"
    case Almost => "ALMOST"
    case Accepted => "ACCEPTED"
    case Omitted => "OMITTED"
    case Different => "DIFFERENT"
    case Corrupted => "CORRUPTED"
    case Shorter => "SHORTER"
    case Longer => "LONGER"
  }

  /** `ok()`: the outcome is acceptable. */
  predicate Ok(o: Outcome) {
    o in {Equals, Matching, Almost, Accepted, Omitted}
  }

  /** `foul()`: the outcome is a real mismatch of values. */
  predicate Foul(o: Outcome) {
    o in {Different, Corrupted}
  }

  /** `COLOR_MAP` */
  const ColorMap: map<Outcome, (string, string)> := map[
    Equals := ("FFFFFF", "FFFFFF"),
    Matching := ("FFFFFF", "CCFFCC"),
    Almost := ("FFFFFF", "CCFFFF"),
    Accepted := ("CCFF99", "FFFF99"),
    Omitted := ("CCCCCC", "CCCCCC"),
    Different := ("CCFFCC", "FF9999"),
    Corrupted := ("FF9999", "FF0000"),
    Shorter := ("E0CCFF", "990000"),
    Longer := ("660066", "FFFF99")
  ]

  const Fallback: (string, string) := ("DDDDDD", "DDDDDD")

  predicate IsHexColor(s: string) {
    |s| == 6 && forall k :: 0 <= k < 6 ==> ('0' <= s[k] <= '9' || 'A' <= s[k] <= 'F')
  }

  /** `get_cell_colors()`: the pair for the outcome, or the grey fallback
      for anything the map lacks. The fallback is never chosen, and each
      colour is a six-digit RGB string. */
  function CellColors(o: Outcome): (r: (string, string))
    ensures r != Fallback
    ensures IsHexColor(r.0) && IsHexColor(r.1)
  {
    assert o in ColorMap by { ColorMapCovers(o); }
    if o in ColorMap then ColorMap[o] else Fallback
  }

  lemma ColorMapCovers(o: Outcome)
    ensures o in ColorMap
  {
    match o
    case Equals => case Matching => case Almost => case Accepted => case Omitted =>
    case Different => case Corrupted => case Shorter => case Longer =>
  }

  /** The acceptable and the unacceptable outcomes are disjoint; the
      structural ones (a row too short or too long) are neither; and the
      sets match the codes 0-4 and 8-9. */
  lemma OkFoulPartition(o: Outcome)
    ensures !(Ok(o) && Foul(o))
    ensures !Ok(o) && !Foul(o) <==> o == Shorter || o == Longer
    ensures Ok(o) <==> Code(o) <= 4
    ensures Foul(o) <==> Code(o) == 8 || Code(o) == 9
  {
  }

  /** The codes and the names identify the members. */
  lemma CodeAndNameInjective(a: Outcome, b: Outcome)
    ensures Code(a) == Code(b) ==> a == b
    ensures Name(a) == Name(b) ==> a == b
  {
  }

  /** `AllOutcomes` lists every member exactly once, and the colour map
      covers all of them. */
  lemma AllOutcomesComplete(o: Outcome)
    ensures o in AllOutcomes && o in ColorMap
    ensures forall i, j :: 0 <= i < j < |AllOutcomes| ==> AllOutcomes[i] != AllOutcomes[j]
  {
  }
}
