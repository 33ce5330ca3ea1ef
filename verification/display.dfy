/** What `main` prints once a verse is resolved: an optional title line
    whose label says whether this is the verse of the day and whether the
    translation is named, then the verse text. */
module Display {
  import opened Outcomes
  import opened FetchVerse
  import opened Passage
  import opened Resolver

  const VotdTranslationLabel: string := " (Verse of the Day - NET)"
  const TranslationLabel: string := " (NET)"
  const VotdLabel: string := " (Verse of the Day)"

  /** The title line carries a verse-of-the-day label after `title`. */
  predicate MarksVotd(line: string, title: string)
  {
    |title| <= |line| && line[|title|..] in {VotdTranslationLabel, VotdLabel}
  }

  /** The title line names the translation after `title`. */
  predicate NamesTranslation(line: string, title: string)
  {
    |title| <= |line| && line[|title|..] in {VotdTranslationLabel, TranslationLabel}
  }

  /** Lines 170-185: the title line, suppressed by `--only-verse`; otherwise
      the title followed by the label the two switches select. */
  function Header(onlyVerse: bool, showTranslation: bool, isVotd: bool, title: string): (r: Option<string>)
    ensures r.None? <==> onlyVerse
    ensures r.Some? ==> |title| <= |r.value| && r.value[..|title|] == title
    ensures r.Some? && showTranslation && isVotd ==> r.value[|title|..] == " (Verse of the Day - NET)"
    ensures r.Some? && showTranslation && !isVotd ==> r.value[|title|..] == " (NET)"
    ensures r.Some? && !showTranslation && isVotd ==> r.value[|title|..] == " (Verse of the Day)"
    ensures r.Some? && !showTranslation && !isVotd ==> r.value == title
    ensures r.Some? ==> (MarksVotd(r.value, title) <==> isVotd)
    ensures r.Some? ==> (NamesTranslation(r.value, title) <==> showTranslation)
  {
    if onlyVerse then None
    else if showTranslation then
      Some(title + if isVotd then VotdTranslationLabel else TranslationLabel)
    else if isVotd then Some(title + VotdLabel)
    else Some(title)
  }

  /** A shown title line tells both switches apart: for one title, different
      settings never print the same line. */
  lemma HeaderDistinguishesSettings(t1: bool, v1: bool, t2: bool, v2: bool, title: string)
    requires Header(false, t1, v1, title) == Header(false, t2, v2, title)
    ensures t1 == t2 && v1 == v2
  {
    var h1 := Header(false, t1, v1, title).value;
    var h2 := Header(false, t2, v2, title).value;
    assert |h1[|title|..]| == |h2[|title|..]|;
  }

  /** The display switches that do not steer the plan. */
  datatype Switches = Switches(onlyVerse: bool, showTranslation: bool)

  /** What reaches the terminal after a successful resolution: the optional
      title line and the verse text (before terminal wrapping). */
  datatype Screen = Screen(header: Option<string>, body: string)

  datatype Session = Session(trace: seq<Event>, shown: Result<Screen, FetchError>)

  /** Lines 122-195: resolve, then print. The label marks the verse of the
      day by the absence of passage words, not by the query value, so
      asking for `votd` explicitly prints no verse-of-the-day label. */
  function Run(opts: Options, switches: Switches, slot: CacheSlot, remote: Remote): (s: Session)
    ensures s.trace == Resolve(opts, slot, remote).trace
    ensures s.shown.Success? <==> Resolve(opts, slot, remote).result.Success?
    ensures s.shown.Failure? ==> s.shown.error == Resolve(opts, slot, remote).result.error
    ensures s.shown.Success? ==>
              var v := Resolve(opts, slot, remote).result.value;
              var h := s.shown.value.header;
              && s.shown.value.body == v.text
              && (h.None? <==> switches.onlyVerse)
              && (h.Some? ==> |v.title| <= |h.value| && h.value[..|v.title|] == v.title)
              && (h.Some? ==> (MarksVotd(h.value, v.title) <==> |opts.words| == 0))
              && (h.Some? ==> (NamesTranslation(h.value, v.title) <==> switches.showTranslation))
  {
    var o := Resolve(opts, slot, remote);
    var isVotd := Requested(opts.words).None?;
    match o.result
    case Failure(e) => Session(o.trace, Failure(e))
    case Success(v) =>
      Session(o.trace, Success(Screen(Header(switches.onlyVerse, switches.showTranslation, isVotd, v.title), v.text)))
  }
}
