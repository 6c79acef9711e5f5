/** The feed side of the archive generator: the values `item_rss` computes for
    each record (the duration, the normalised date and the zero-padded number)
    and the collecting loop of `generate_rss`. */
module Renderer {
  import opened Wrappers
  import opened PyText
  import opened PyInt
  import opened Extractor
  import opened Sequences

  /** `"{}:{}:00".format(m // 60, m % 60)`. Python's floor division and modulo
      by the positive number 60 agree with Dafny's `/` and `%`. Neither part is
      zero-padded. */
  function Duration(minutes: int): string {
    IntToStr(minutes / 60) + ":" + IntToStr(minutes % 60) + ":00"
  }

  /** Lines 168-170 of `item_rss`: split the date on single spaces, cut the
      SECOND token to at most three characters and join the tokens again.
      `None` stands for the `IndexError` of a date without a space. */
  function NormalizeDate(date: string): Option<string> {
    var tokens := Split(date, ' ');
    if |tokens| < 2 then None
    else Some(Join(tokens[1 := Take(tokens[1], 3)], ' '))
  }

  /** `str(nr).rjust(4, '0')`. */
  function Nr4(nr: int): string {
    RJust(IntToStr(nr), 4, '0')
  }

  /** The values substituted into the item template, before XML escaping. */
  datatype Item = Item(
    nr: int,
    nrText: string,
    nr4: string,
    date: string,
    duration: string,
    title: string,
    description: string)

  /** One step of `item_rss`; `None` when the date normalisation raises. */
  function RenderItem(r: Record): Option<Item> {
    match NormalizeDate(r.date)
    case None => None
    case Some(date) =>
      Some(Item(r.nr, IntToStr(r.nr), Nr4(r.nr), date, Duration(r.minutes), r.title, r.description))
  }

  /** What `item_rss` makes of each of `records`. */
  function Rendered(records: seq<Record>): seq<Option<Item>> {
    seq(|records|, k requires 0 <= k < |records| => RenderItem(records[k]))
  }

  /** The items of `records` in order, or `None` when one of them raises. */
  function RenderAll(records: seq<Record>): Option<seq<Item>> {
    Collect(Rendered(records))
  }

  /** How a run of `generate_rss` ends: the exception escapes (nothing is
      written), no episode was found (an error message, nothing is written),
      or the feed is written with these items. */
  datatype Generation = Crashed | NoEpisodes | Created(items: seq<Item>)

  function Generate(records: seq<Record>): Generation {
    match RenderAll(records)
    case None => Crashed
    case Some(items) => if items == [] then NoEpisodes else Created(items)
  }

  /** `generate_rss`: the items are appended in the order the records arrive;
      the feed is written only when the list is not empty. */
  method GenerateRss(records: seq<Record>) returns (g: Generation)
    ensures g == Generate(records)
  {
    var episodes: seq<Item> := [];
    for i := 0 to |records|
      invariant RenderAll(records[..i]) == Some(episodes)
    {
      RenderedStep(records, i);
      var item := RenderItem(records[i]);
      if item.None? {
        RenderAllFails(records, i + 1);
        return Crashed;
      }
      episodes := episodes + [item.value];
    }
    assert records[..|records|] == records;
    if episodes != [] {
      g := Created(episodes);
    } else {
      g := NoEpisodes;
    }
  }

  /** One more record renders one more item, or raises. */
  lemma RenderedStep(records: seq<Record>, i: nat)
    requires i < |records|
    ensures RenderAll(records[..i + 1]) == match RenderAll(records[..i])
      case None => None
      case Some(items) => if RenderItem(records[i]).None? then None else Some(items + [RenderItem(records[i]).value])
  {
    RenderedSnoc(records, i);
    CollectSnoc(Rendered(records[..i]), RenderItem(records[i]));
  }

  lemma RenderedSnoc(records: seq<Record>, i: nat)
    requires i < |records|
    ensures Rendered(records[..i + 1]) == Rendered(records[..i]) + [RenderItem(records[i])]
  {
  }

  lemma RenderedPrefix(records: seq<Record>, i: nat)
    requires i <= |records|
    ensures Rendered(records[..i]) == Rendered(records)[..i]
  {
  }

  /** Once a record raises, the whole run raises. */
  lemma RenderAllFails(records: seq<Record>, i: nat)
    requires i <= |records| && RenderAll(records[..i]).None?
    ensures RenderAll(records).None?
  {
    RenderedPrefix(records, i);
    CollectFails(Rendered(records), i);
  }

  /** Once a prefix of the steps raises, the whole run raises. */
  lemma {:induction false} CollectFails(xs: seq<Option<Item>>, i: nat)
    requires i <= |xs| && Collect(xs[..i]).None?
    ensures Collect(xs).None?
    decreases |xs| - i
  {
    if i < |xs| {
      assert xs[..i + 1] == xs[..i] + [xs[i]];
      CollectSnoc(xs[..i], xs[i]);
      CollectFails(xs, i + 1);
    } else {
      assert xs[..i] == xs;
    }
  }
}

/** What is proved about the feed values and the collecting loop. */
module RendererProperties {
  import opened Wrappers
  import opened PyText
  import opened PyInt
  import opened Extractor
  import opened Renderer
  import opened Sequences

  // ----- duration --------------------------------------------------------

  /** The duration has three `:`-separated parts: hours, minutes and `00`. */
  lemma DurationParts(m: int)
    ensures Split(Duration(m), ':') == [IntToStr(m / 60), IntToStr(m % 60), "00"]
  {
    IntToStrChars(m / 60);
    IntToStrChars(m % 60);
    SplitThree(IntToStr(m / 60), IntToStr(m % 60), "00", ':');
    assert Duration(m) == IntToStr(m / 60) + [':'] + IntToStr(m % 60) + [':'] + "00";
  }

  /** Reading the duration back gives hours and minutes below 60 that add up to
      the record's minutes, for any number of minutes, negative ones included. */
  lemma DurationRoundTrip(m: int)
    ensures var p := Split(Duration(m), ':');
      && |p| == 3 && p[2] == "00"
      && ParseInt(p[0]).Some? && ParseInt(p[1]).Some?
      && 0 <= ParseInt(p[1]).value < 60
      && ParseInt(p[0]).value * 60 + ParseInt(p[1]).value == m
  {
    DurationParts(m);
    ParseIntToStr(m / 60);
    ParseIntToStr(m % 60);
  }

  lemma DurationExamples()
    ensures Duration(63) == "1:3:00"
    ensures Duration(5) == "0:5:00"
    ensures Duration(-1) == "-1:59:00"
  {
    DigitExamples();
    assert IntToStr(59) == "59" by {
      assert NatToStr(59) == NatToStr(5) + [DigitChar(9)];
    }
  }

  lemma DigitExamples()
    ensures IntToStr(0) == "0" && IntToStr(1) == "1" && IntToStr(3) == "3" && IntToStr(5) == "5"
    ensures IntToStr(-1) == "-1" && NatToStr(5) == "5" && DigitChar(9) == '9'
  {
  }

  // ----- date ------------------------------------------------------------

  /** A date without a space raises; otherwise the normalised date has the same
      tokens, except that the second one is cut to at most three characters. */
  lemma NormalizeDateTokens(date: string)
    ensures NormalizeDate(date).None? <==> ' ' !in date
    ensures NormalizeDate(date).Some? ==>
      var t, u := Split(date, ' '), Split(NormalizeDate(date).value, ' ');
      && |u| == |t|
      && u[1] == Take(t[1], 3)
      && (forall k :: 0 <= k < |t| && k != 1 ==> u[k] == t[k])
  {
    SplitCount(date, ' ');
    var t := Split(date, ' ');
    if |t| >= 2 {
      TakeKeepsSpaceFree(t[1], 3);
      SplitJoin(t[1 := Take(t[1], 3)], ' ');
    }
  }

  lemma TakeKeepsSpaceFree(s: string, n: nat)
    requires ' ' !in s
    ensures ' ' !in Take(s, n)
  {
    if |s| > n {
      assert forall c :: c in s[..n] ==> c in s;
    }
  }

  /** Normalising a normalised date changes nothing more. */
  lemma NormalizeDateIdempotent(date: string)
    requires NormalizeDate(date).Some?
    ensures NormalizeDate(NormalizeDate(date).value) == NormalizeDate(date)
  {
    var t := Split(date, ' ');
    var u := t[1 := Take(t[1], 3)];
    TakeKeepsSpaceFree(t[1], 3);
    SplitJoin(u, ' ');
    assert Take(u[1], 3) == u[1];
    assert u[1 := Take(u[1], 3)] == u;
  }

  /** A day-month-year date keeps its day and year and loses all but the
      first three letters of its month. */
  lemma DayMonthYear(day: string, month: string, year: string)
    requires ' ' !in day && ' ' !in month && ' ' !in year
    ensures NormalizeDate(day + " " + month + " " + year) == Some(day + " " + Take(month, 3) + " " + year)
  {
    SplitThree(day, month, year, ' ');
    assert day + " " + month + " " + year == day + [' '] + month + [' '] + year;
    var u := [day, Take(month, 3), year];
    assert [day, month, year][1 := Take(month, 3)] == u;
    JoinThree(day, Take(month, 3), year, ' ');
    assert day + " " + Take(month, 3) + " " + year == day + [' '] + Take(month, 3) + [' '] + year;
  }

  /** The month of `"12 Sept 2016"` is shortened. */
  lemma DayFirstExample()
    ensures NormalizeDate("12 Sept 2016") == Some("12 Sep 2016")
  {
    DayMonthYear("12", "Sept", "2016");
    assert "12" + " " + "Sept" + " " + "2016" == "12 Sept 2016";
    assert "12" + " " + Take("Sept", 3) + " " + "2016" == "12 Sep 2016";
  }

  /** In `"Sept 12 2016"` the second token is the day, so that date is left as
      it is, and so is `"May 3 2016"`. */
  lemma MonthFirstExamples()
    ensures NormalizeDate("Sept 12 2016") == Some("Sept 12 2016")
    ensures NormalizeDate("May 3 2016") == Some("May 3 2016")
  {
    DayMonthYear("Sept", "12", "2016");
    assert "Sept" + " " + "12" + " " + "2016" == "Sept 12 2016";
    DayMonthYear("May", "3", "2016");
    assert "May" + " " + "3" + " " + "2016" == "May 3 2016";
  }

  /** A date of one token raises. */
  lemma OneTokenExample()
    ensures NormalizeDate("2016") == None
  {
    NormalizeDateTokens("2016");
  }

  // ----- NR4 -------------------------------------------------------------

  function Pow10(k: nat): nat {
    if k == 0 then 1 else 10 * Pow10(k - 1)
  }

  /** A number below `10^k` has at most `k` digits. */
  lemma {:induction false} NatToStrLength(n: nat, k: nat)
    requires 1 <= k && n < Pow10(k)
    ensures |NatToStr(n)| <= k
  {
    if n >= 10 {
      assert n / 10 < Pow10(k - 1);
      NatToStrLength(n / 10, k - 1);
    }
  }

  /** For a non-negative number the padded form is all digits, at least four
      of them, exactly four below 10000, and `int()` reads the number back. */
  lemma Nr4Value(nr: nat)
    ensures AllDigits(Nr4(nr)) && ParseInt(Nr4(nr)) == Some(nr)
    ensures |Nr4(nr)| >= 4
    ensures nr < 10000 ==> |Nr4(nr)| == 4
  {
    var s := IntToStr(nr);
    var r := Nr4(nr);
    var z := r[..|r| - |s|];
    assert r == z + s;
    ParseIntLeadingZeros(z, nr);
    LeadingZeros(z, s);
    if nr < 10000 {
      assert Pow10(4) == 10000;
      NatToStrLength(nr, 4);
    }
  }

  /** Different non-negative numbers get different padded forms. */
  lemma Nr4Injective(m: nat, n: nat)
    requires m != n
    ensures Nr4(m) != Nr4(n)
  {
    Nr4Value(m);
    Nr4Value(n);
  }

  /** `'7'` is padded to `'0007'`; a negative number keeps its sign behind the
      padding. */
  lemma Nr4Examples()
    ensures Nr4(7) == "0007"
    ensures Nr4(-5) == "00-5"
  {
    DigitExamples();
    assert IntToStr(7) == "7";
    assert IntToStr(-5) == "-5";
  }

  // ----- item_rss --------------------------------------------------------

  /** An item raises exactly when the record's date has no space; otherwise it
      carries the record's number, title and description unchanged. */
  lemma RenderItemFields(r: Record)
    ensures RenderItem(r).None? <==> ' ' !in r.date
    ensures RenderItem(r).Some? ==>
      var it := RenderItem(r).value;
      && it.nr == r.nr && it.nrText == IntToStr(r.nr) && it.nr4 == Nr4(r.nr)
      && Some(it.date) == NormalizeDate(r.date) && it.duration == Duration(r.minutes)
      && it.title == r.title && it.description == r.description
  {
    NormalizeDateTokens(r.date);
  }

  /** The items are rendered one per record, in record order, and the run
      raises exactly when some record's date has no space. */
  lemma RenderAllItems(records: seq<Record>)
    ensures RenderAll(records).Some? <==> forall k :: 0 <= k < |records| ==> RenderItem(records[k]).Some?
    ensures RenderAll(records).Some? ==>
      var items := RenderAll(records).value;
      |items| == |records| && forall k :: 0 <= k < |records| ==> items[k] == RenderItem(records[k]).value
  {
    var xs := Rendered(records);
    CollectValues(xs);
    assert |xs| == |records|;
    assert forall k :: 0 <= k < |records| ==> xs[k] == RenderItem(records[k]);
  }

  /** The three ways a run ends. */
  lemma GenerateOutcomes(records: seq<Record>)
    ensures Generate(records) == Crashed <==> exists k :: 0 <= k < |records| && ' ' !in records[k].date
    ensures Generate(records) == NoEpisodes <==> records == []
    ensures Generate(records).Created? ==>
      var items := Generate(records).items;
      |items| == |records| && forall k :: 0 <= k < |records| ==> Some(items[k]) == RenderItem(records[k])
  {
    RenderAllItems(records);
    forall k | 0 <= k < |records| {
      RenderItemFields(records[k]);
    }
  }
}
