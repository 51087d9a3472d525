/**
 * The placement page: the scale tier `format_number` picks for a rupee
 * amount, and the maximum and minimum CTC of the placement table.
 */
module CampusAnalytics {
  import opened Frame

  /** One placement row; only the CTC column is read by the metrics. */
  datatype Placement = Placement(ctc: int)

  function Ctc(p: Placement): int { p.ctc }

  /** The four branches of `format_number`, largest scale first. */
  datatype Tier = Billions | Millions | Thousands | Units

  const Currency: string := "₹ "

  /** A tier's position, Units lowest. */
  function TierRank(t: Tier): nat
  {
    match t
    case Units => 0
    case Thousands => 1
    case Millions => 2
    case Billions => 3
  }

  function Suffix(t: Tier): string
  {
    match t
    case Billions => "B"
    case Millions => "M"
    case Thousands => "K"
    case Units => ""
  }

  function Divisor(t: Tier): real
  {
    match t
    case Billions => 1_000_000_000.0
    case Millions => 1_000_000.0
    case Thousands => 1000.0
    case Units => 1.0
  }

  /** The if/elif chain of `format_number`: each tier holds on exactly its interval. */
  function TierOf(num: real): (t: Tier)
    ensures t == Billions <==> 1_000_000_000.0 <= num
    ensures t == Millions <==> 1_000_000.0 <= num < 1_000_000_000.0
    ensures t == Thousands <==> 1000.0 <= num < 1_000_000.0
    ensures t == Units <==> num < 1000.0
  {
    if num >= 1_000_000_000.0 then Billions
    else if num >= 1_000_000.0 then Millions
    else if num >= 1000.0 then Thousands
    else Units
  }

  /** What `format_number` renders, before digit formatting: currency, scaled amount, suffix. */
  datatype Display = Display(prefix: string, scaled: real, suffix: string)

  /**
   * The display always starts with the currency sign; the scaled amount times
   * the tier's divisor gives back the input; the scaled amount is at least 1
   * in the B, M and K tiers, and below 1000 in every tier but B.
   */
  function FormatNumber(num: real): (d: Display)
    ensures d.prefix == Currency
    ensures d.suffix == Suffix(TierOf(num))
    ensures d.scaled * Divisor(TierOf(num)) == num
    ensures TierOf(num) != Units ==> 1.0 <= d.scaled
    ensures TierOf(num) == Millions || TierOf(num) == Thousands ==> d.scaled < 1000.0
    ensures TierOf(num) == Units ==> d.scaled == num && d.scaled < 1000.0
  {
    if num >= 1_000_000_000.0 then Display(Currency, num / 1_000_000_000.0, "B")
    else if num >= 1_000_000.0 then Display(Currency, num / 1_000_000.0, "M")
    else if num >= 1000.0 then Display(Currency, num / 1000.0, "K")
    else Display(Currency, num, "")
  }

  /** A larger amount never gets a smaller tier. */
  lemma TierMonotone(a: real, b: real)
    requires a <= b
    ensures TierRank(TierOf(a)) <= TierRank(TierOf(b))
  {
  }

  /** `campus['CTC'].max()`, None for the NaN of an empty table. */
  function MaxCtc(campus: seq<Placement>): (m: Option<int>)
    ensures m.None? <==> campus == []
    ensures m.Some? ==> (exists p :: p in campus && p.ctc == m.value)
                        && forall p :: p in campus ==> p.ctc <= m.value
  {
    var col := Map(campus, Ctc);
    MapMembers(campus, Ctc);
    assert forall p :: p in campus ==> Ctc(p) in col;
    Max(col)
  }

  /** `campus['CTC'].min()`, None for the NaN of an empty table. */
  function MinCtc(campus: seq<Placement>): (m: Option<int>)
    ensures m.None? <==> campus == []
    ensures m.Some? ==> (exists p :: p in campus && p.ctc == m.value)
                        && forall p :: p in campus ==> m.value <= p.ctc
  {
    var col := Map(campus, Ctc);
    MapMembers(campus, Ctc);
    assert forall p :: p in campus ==> Ctc(p) in col;
    Min(col)
  }

  /** Over a non-empty table both statistics exist and the minimum is at most the maximum. */
  lemma CtcRange(campus: seq<Placement>)
    requires campus != []
    ensures MinCtc(campus).Some? && MaxCtc(campus).Some?
    ensures MinCtc(campus).value <= MaxCtc(campus).value
  {
    var lo, hi := MinCtc(campus), MaxCtc(campus);
    assert lo.Some? && hi.Some?;
    var p :| p in campus && p.ctc == lo.value;
    assert p.ctc <= hi.value;
  }
}
