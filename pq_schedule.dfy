/**
 * The priority-queue scheduler of the incremental-reading add-on: the interval
 * a card gets after it is answered, the due-date spec handed to the
 * collection's scheduler, and the numbered, whitespace-collapsed entries of
 * the organiser list.
 */
module PqSchedule {
  import opened Wrappers
  import opened Numerals
  import opened Rounding
  import opened Whitespace

  // ---------------------------------------------------------------------------
  // Interval update after an answer

  /** A card without a `lastIvl` attribute is a new card and counts as interval 0. */
  function PrevInterval(lastIvl: Option<nat>): (i: nat)
    ensures lastIvl == None ==> i == 0
    ensures lastIvl.Some? ==> i == lastIvl.value
  {
    match lastIvl
    case None => 0
    case Some(ivl) => ivl
  }

  /**
   * `round(prevInterval * (1 + 1 / priority))`, computed on the exact rational.
   * The rounded value never falls below the previous interval and never
   * passes its double.
   */
  function RawInterval(priority: int, prevInterval: nat): (r: int)
    requires priority >= 1
    ensures prevInterval <= r <= 2 * prevInterval
  {
    GrowthBounds(priority, prevInterval);
    RoundHalfEven(prevInterval * (priority + 1), priority)
  }

  /** prevInterval <= round(prevInterval * (priority + 1) / priority) <= 2 * prevInterval. */
  lemma GrowthBounds(priority: int, prevInterval: nat)
    requires priority >= 1
    ensures var r := RoundHalfEven(prevInterval * (priority + 1), priority);
      prevInterval <= r <= 2 * prevInterval
  {
    var p, i := priority, prevInterval;
    var r := RoundHalfEven(i * (p + 1), p);
    var n := i * (p + 1);
    RoundHalfEvenIsNearest(n, p);
    assert n == p * i + i;
    assert p * (2 * i - 1) == 2 * (p * i) - p;
    assert p * (4 * i + 1) == 4 * (p * i) + p;
    if r < i {
      // p(2r + 1) <= p(2i - 1) < 2n
      MulLeft(p, 2 * r + 1, 2 * i - 1);
      assert false;
    }
    if r > 2 * i {
      // 2n < p(4i + 1) <= p(2r - 1)
      MulLeft(i, 1, p);
      MulLeft(p, 4 * i + 1, 2 * r - 1);
      assert false;
    }
  }

  /**
   * The interval after an answer: the rounded value, bumped by one when
   * rounding left it equal to the previous interval.
   */
  function NextInterval(priority: int, prevInterval: nat): (r: nat)
    requires priority >= 1
    ensures prevInterval < r
    ensures r <= if prevInterval == 0 then 1 else 2 * prevInterval
  {
    var raw := RawInterval(priority, prevInterval);
    if raw == prevInterval then prevInterval + 1 else raw
  }

  /** A new card (interval 0) gets interval 1 whatever its priority. */
  lemma NextIntervalNewCard(priority: int)
    requires priority >= 1
    ensures NextInterval(priority, 0) == 1
  {
  }

  /** At priority 1 the interval doubles. */
  lemma NextIntervalPriorityOne(prevInterval: nat)
    requires prevInterval >= 1
    ensures NextInterval(1, prevInterval) == 2 * prevInterval
  {
    RoundHalfEvenCharacterized(prevInterval * 2, 1, 2 * prevInterval);
  }

  /**
   * Rounding leaves the interval unchanged exactly when prevInterval is the
   * integer nearest (ties to even) to prevInterval * (priority + 1) / priority.
   * The result is prevInterval + 1 exactly when that nearest integer is
   * prevInterval or prevInterval + 1; otherwise the result is that nearest
   * integer.
   */
  lemma NextIntervalGuard(priority: int, prevInterval: nat)
    requires priority >= 1
    ensures var n, r := prevInterval * (priority + 1), NextInterval(priority, prevInterval);
      && (IsNearestTiesEven(n, priority, prevInterval) <==> RawInterval(priority, prevInterval) == prevInterval)
      && (r == prevInterval + 1 <==>
            IsNearestTiesEven(n, priority, prevInterval) || IsNearestTiesEven(n, priority, prevInterval + 1))
      && (!IsNearestTiesEven(n, priority, prevInterval) ==> IsNearestTiesEven(n, priority, r))
  {
    var n := prevInterval * (priority + 1);
    RoundHalfEvenCharacterized(n, priority, prevInterval);
    RoundHalfEvenCharacterized(n, priority, prevInterval + 1);
    RoundHalfEvenIsNearest(n, priority);
  }

  /** The guard on equality is the same as taking the larger of the rounded value and prevInterval + 1. */
  lemma NextIntervalIsMax(priority: int, prevInterval: nat)
    requires priority >= 1
    ensures var raw := RawInterval(priority, prevInterval);
      NextInterval(priority, prevInterval) == if raw > prevInterval then raw else prevInterval + 1
  {
  }

  /** A larger priority value means a smaller growth factor: for a fixed interval the result never grows with it. */
  lemma NextIntervalAntitoneInPriority(p1: int, p2: int, prevInterval: nat)
    requires 1 <= p1 <= p2
    ensures NextInterval(p2, prevInterval) <= NextInterval(p1, prevInterval)
  {
    var i := prevInterval;
    // i(p2 + 1) / p2 <= i(p1 + 1) / p1, that is i*p1 <= i*p2 after cross-multiplying
    assert (i * (p2 + 1)) * p1 == i * p1 * p2 + i * p1;
    assert (i * (p1 + 1)) * p2 == i * p1 * p2 + i * p2;
    if i > 0 { MulLeft(i, p1, p2); }
    RoundHalfEvenMonotone(i * (p2 + 1), p2, i * (p1 + 1), p1);
    NextIntervalIsMax(p1, i);
    NextIntervalIsMax(p2, i);
  }

  /** A card with a longer previous interval never gets a shorter new one. */
  lemma NextIntervalMonotoneInPrev(priority: int, i: nat, j: nat)
    requires priority >= 1
    requires i <= j
    ensures NextInterval(priority, i) <= NextInterval(priority, j)
  {
    MulLeft(priority + 1, i, j);
    MulLeft(priority, (priority + 1) * i, (priority + 1) * j);
    assert (i * (priority + 1)) * priority == priority * ((priority + 1) * i);
    assert (j * (priority + 1)) * priority == priority * ((priority + 1) * j);
    RoundHalfEvenMonotone(i * (priority + 1), priority, j * (priority + 1), priority);
    NextIntervalIsMax(priority, i);
    NextIntervalIsMax(priority, j);
  }

  // ---------------------------------------------------------------------------
  // Due-date spec string

  /** The interval in decimal followed by "!", the marker that moves the interval along with the due date. */
  function DueSpec(interval: nat): (spec: string)
    ensures |spec| >= 2 && spec[|spec| - 1] == '!'
    ensures Canonical(spec[..|spec| - 1])
    ensures forall k :: 0 <= k < |spec| - 1 ==> spec[k] != '!'
  {
    Str(interval) + "!"
  }

  /** Reads a spec of the form digits + "!" back into its interval. */
  function ParseDueSpec(spec: string): Option<nat> {
    if |spec| >= 2 && spec[|spec| - 1] == '!' && AllDigits(spec[..|spec| - 1])
    then Some(Value(spec[..|spec| - 1]))
    else None
  }

  /** Removing the "!" and reading the digits gives back the interval. */
  lemma DueSpecRoundTrip(interval: nat)
    ensures ParseDueSpec(DueSpec(interval)) == Some(interval)
  {
    var spec := DueSpec(interval);
    assert spec[..|spec| - 1] == Str(interval);
    ValueOfStr(interval);
  }

  /** A spec whose digits carry no leading zero is exactly the DueSpec of what it reads as. */
  lemma DueSpecOfParse(spec: string)
    requires ParseDueSpec(spec).Some? && Canonical(spec[..|spec| - 1])
    ensures DueSpec(ParseDueSpec(spec).value) == spec
  {
    var digits := spec[..|spec| - 1];
    StrOfValue(digits);
    assert spec == digits + "!";
  }

  /**
   * What `answer2` hands to `set_due_date` for a card of the given priority
   * whose `lastIvl` is present or absent.
   */
  function Answer(priority: int, lastIvl: Option<nat>): (spec: string)
    requires priority >= 1
    ensures ParseDueSpec(spec) == Some(NextInterval(priority, PrevInterval(lastIvl)))
    ensures ParseDueSpec(spec).value > PrevInterval(lastIvl)
    ensures lastIvl.None? ==> spec == "1!"
  {
    var ivl := NextInterval(priority, PrevInterval(lastIvl));
    DueSpecRoundTrip(ivl);
    DueSpec(ivl)
  }

  // ---------------------------------------------------------------------------
  // Organiser list

  /** One card as `_getCardInfo` describes it. */
  datatype CardInfo = CardInfo(id: int, nid: int, title: string, priority: Option<string>)

  /** One row of the organiser list: its position label, its display title and the card behind it. */
  datatype ListEntry = ListEntry(info: string, title: string, card: CardInfo)

  /** Width of the position labels for n cards: the number of digits of n + 1. */
  function PosWidth(n: nat): (w: nat)
    ensures w >= 1
  {
    |Str(n + 1)|
  }

  /** PosWidth(n) is the number of decimal digits of n + 1. */
  lemma PosWidthDigits(n: nat)
    ensures Pow10(PosWidth(n) - 1) <= n + 1 < Pow10(PosWidth(n))
  {
    StrLengthBounds(n + 1);
  }

  /** `str(i).zfill(width)`. */
  function Label(i: nat, width: nat): (l: string)
    ensures |l| == if |Str(i)| < width then width else |Str(i)|
    ensures AllDigits(l) && Value(l) == i
  {
    var s := Str(i);
    if |s| <= width then
      ZFillUnsigned(s, width);
      ValueLeadingZeros(width - |s|, s);
      ValueOfStr(i);
      ZFill(s, width)
    else
      ZFillPads(s, width);
      ValueOfStr(i);
      ZFill(s, width)
  }

  /** A label padded to a width that fits `str(i)` is zeros then the digits of i, and reads back as i. */
  lemma LabelValue(i: nat, width: nat)
    requires |Str(i)| <= width
    ensures var l := Label(i, width);
      && |l| == width
      && l == Zeros(width - |Str(i)|) + Str(i)
      && AllDigits(l)
      && Value(l) == i
  {
    var s := Str(i);
    ZFillUnsigned(s, width);
    ValueLeadingZeros(width - |s|, s);
    ValueOfStr(i);
  }

  /**
   * For n cards, label i (1 <= i <= n) is PosWidth(n) characters long, made
   * of padding zeros followed by the digits of i, and reads back as i.
   */
  lemma LabelShape(i: nat, n: nat)
    requires 1 <= i <= n
    ensures var w, l := PosWidth(n), Label(i, PosWidth(n));
      && |l| == w
      && l == Zeros(w - |Str(i)|) + Str(i)
      && AllDigits(l)
      && Value(l) == i
  {
    StrLengthMonotone(i, n + 1);
    LabelValue(i, PosWidth(n));
  }

  /**
   * `_updateListItems`: one entry per card, in card order; entry k carries
   * label k + 1, of the common width, all digits, reading back as k + 1, and
   * the card's title with whitespace collapsed.
   */
  method UpdateListItems(cards: seq<CardInfo>) returns (items: seq<ListEntry>)
    ensures |items| == |cards|
    ensures forall k :: 0 <= k < |items| ==> items[k].card == cards[k]
    ensures forall k :: 0 <= k < |items| ==> items[k].title == CollapseWhitespace(cards[k].title)
    ensures forall k :: 0 <= k < |items| ==> items[k].info == Label(k + 1, PosWidth(|cards|))
    ensures forall k :: 0 <= k < |items| ==>
      |items[k].info| == PosWidth(|cards|) && AllDigits(items[k].info) && Value(items[k].info) == k + 1
  {
    var width := PosWidth(|cards|);
    items := [];
    var i := 1;
    while i <= |cards|
      invariant 1 <= i <= |cards| + 1
      invariant |items| == i - 1
      invariant forall k :: 0 <= k < |items| ==>
        items[k] == ListEntry(Label(k + 1, width), CollapseWhitespace(cards[k].title), cards[k])
    {
      var card := cards[i - 1];
      var info := Label(i, width);
      var title := CollapseWhitespace(card.title);
      items := items + [ListEntry(info, title, card)];
      i := i + 1;
    }
    LabelsFit(|cards|);
  }

  /** Every label of an n-card list is exactly posWidth long. */
  lemma LabelsFit(n: nat)
    ensures forall i :: 1 <= i <= n ==> |Label(i, PosWidth(n))| == PosWidth(n)
  {
    forall i | 1 <= i <= n ensures |Label(i, PosWidth(n))| == PosWidth(n) {
      StrLengthMonotone(i, n + 1);
    }
  }

  /** The worked values: priority 1 doubles, a stalled rounding is bumped, ties go to even. */
  lemma NextIntervalExamples()
    ensures NextInterval(1, 10) == 20
    ensures NextInterval(10, 1) == 2
    ensures NextInterval(2, 3) == 4
    ensures NextInterval(2, 5) == 8
    ensures NextInterval(5, 0) == 1
    ensures Answer(1, Some(10)) == "20!"
  {
    assert Str(20) == Str(2) + [DigitChar(0)];
  }
}
