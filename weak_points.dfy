/**
 * The weak-points view's mastery banding: a mastery level picks a bar
 * colour and a text colour from the same four bands.
 */
module WeakPoints {

  /** The four mastery bands, from weakest to strongest. */
  datatype Band = Red | Amber | Blue | Green

  /** Green from 85, blue from 70, amber from 50, red below. */
  function BandOf(level: real): (b: Band)
    ensures b == Green <==> level >= 85.0
    ensures b == Blue <==> 70.0 <= level < 85.0
    ensures b == Amber <==> 50.0 <= level < 70.0
    ensures b == Red <==> level < 50.0
  {
    if level >= 85.0 then Green
    else if level >= 70.0 then Blue
    else if level >= 50.0 then Amber
    else Red
  }

  function BandRank(b: Band): nat {
    match b
    case Red => 0
    case Amber => 1
    case Blue => 2
    case Green => 3
  }

  /** `getMasteryColor`. */
  function MasteryColor(level: real): (c: string)
    ensures c == "bg-green-500" <==> level >= 85.0
    ensures c == "bg-blue-500" <==> 70.0 <= level < 85.0
    ensures c == "bg-amber-500" <==> 50.0 <= level < 70.0
    ensures c == "bg-red-500" <==> level < 50.0
  {
    if level >= 85.0 then "bg-green-500"
    else if level >= 70.0 then "bg-blue-500"
    else if level >= 50.0 then "bg-amber-500"
    else "bg-red-500"
  }

  /** `getMasteryTextColor`. */
  function MasteryTextColor(level: real): (c: string)
    ensures c == "text-green-600" <==> level >= 85.0
    ensures c == "text-blue-600" <==> 70.0 <= level < 85.0
    ensures c == "text-amber-600" <==> 50.0 <= level < 70.0
    ensures c == "text-red-600" <==> level < 50.0
  {
    if level >= 85.0 then "text-green-600"
    else if level >= 70.0 then "text-blue-600"
    else if level >= 50.0 then "text-amber-600"
    else "text-red-600"
  }

  /** The colour names of a band, as the bar and the text use them. */
  function BarColor(b: Band): string {
    match b
    case Green => "bg-green-500"
    case Blue => "bg-blue-500"
    case Amber => "bg-amber-500"
    case Red => "bg-red-500"
  }

  function TextColor(b: Band): string {
    match b
    case Green => "text-green-600"
    case Blue => "text-blue-600"
    case Amber => "text-amber-600"
    case Red => "text-red-600"
  }

  /** For every level, the bar and the text are coloured from the same band. */
  lemma SameBand(level: real)
    ensures MasteryColor(level) == BarColor(BandOf(level))
    ensures MasteryTextColor(level) == TextColor(BandOf(level))
  {
  }

  /** A higher mastery level never falls in a lower band. */
  lemma BandMonotone(s: real, t: real)
    requires s <= t
    ensures BandRank(BandOf(s)) <= BandRank(BandOf(t))
  {
  }
}
