/**
 * The discussion analysis of `ModelDiscussionSystem._analyze_discussion`:
 * from the discussion replies, a tally of the labels each reply says it chose
 * or prefers, the refinements each reply lists, the most frequent label and
 * the refinements de-duplicated and joined by newlines.
 */
module Analysis {
  import opened Wrappers
  import opened PyText
  import opened PyDict

  /** The labels the analysis looks for, in the order it looks for them. */
  const Labels: seq<string> := ["R1", "R2", "R3"]

  const ImprovementsMarker: string := "improvements:"
  const RefinementsMarker: string := "refinements:"

  /** `max` of an empty collection raises: there is no label to choose. */
  datatype AnalysisError = NoConsensus

  // ------------------------------------------------------------- the tally

  /**
   * `f"chose {label}" in low or f"prefer {label}" in low`, as the program
   * writes it: "chose " or "prefer " followed by the label, exactly as
   * spelled, occurs somewhere in `low`.
   */
  predicate Endorses(low: string, lab: string)
    ensures Endorses(low, lab) <==> exists i :: OccursAt(low, "chose " + lab, i) || OccursAt(low, "prefer " + lab, i)
  {
    Contains(low, "chose " + lab) || Contains(low, "prefer " + lab)
  }

  /** The labels of `labels`, in order, that the lowered reply `low` endorses. */
  function MatchingLabels(low: string, labels: seq<string>, endorses: (string, string) -> bool): (r: seq<string>)
    ensures |r| <= |labels|
    ensures forall l :: l in r <==> l in labels && endorses(low, l)
  {
    if |labels| == 0 then []
    else
      var last := labels[|labels| - 1];
      MatchingLabels(low, labels[..|labels| - 1], endorses) + (if endorses(low, last) then [last] else [])
  }

  /** The labels one reply adds to the tally. */
  function Mentions(text: string, endorses: (string, string) -> bool): seq<string>
  {
    MatchingLabels(Lower(text), Labels, endorses)
  }

  /** The list `chosen_labels` once the replies have been scanned in order. */
  function Tally(texts: seq<string>, endorses: (string, string) -> bool): (r: seq<string>)
    ensures |r| <= |Labels| * |texts|
  {
    if |texts| == 0 then []
    else Tally(texts[..|texts| - 1], endorses) + Mentions(texts[|texts| - 1], endorses)
  }

  /** A label is in the tally exactly when it is one of the three and some lowered reply endorses it. */
  lemma {:induction false} TallyMembers(texts: seq<string>, endorses: (string, string) -> bool, l: string)
    ensures l in Tally(texts, endorses) <==> l in Labels && exists t :: t in texts && endorses(Lower(t), l)
  {
    if |texts| > 0 {
      var init := texts[..|texts| - 1];
      TallyMembers(init, endorses, l);
      assert texts == init + [texts[|texts| - 1]];
      if t :| t in texts && endorses(Lower(t), l) {
        if t != texts[|texts| - 1] {
          assert t in init;
        }
      }
    }
  }

  /** One reply adds a label once when it is scanned and endorsed, and otherwise not at all. */
  lemma {:induction false} MatchingCount(low: string, labels: seq<string>, endorses: (string, string) -> bool, l: string)
    requires Distinct(labels)
    ensures multiset(MatchingLabels(low, labels, endorses))[l] == if l in labels && endorses(low, l) then 1 else 0
  {
    if |labels| > 0 {
      var init, last := labels[..|labels| - 1], labels[|labels| - 1];
      assert Distinct(init);
      assert last !in init;
      assert labels == init + [last];
      MatchingCount(low, init, endorses, l);
    }
  }

  /** How many of the replies, lowered, endorse `l`. */
  function EndorsingReplies(texts: seq<string>, endorses: (string, string) -> bool, l: string): (n: nat)
    ensures n <= |texts|
  {
    if |texts| == 0 then 0
    else EndorsingReplies(texts[..|texts| - 1], endorses, l) + (if endorses(Lower(texts[|texts| - 1]), l) then 1 else 0)
  }

  /** The three labels are distinct. */
  lemma LabelsDistinct()
    ensures Distinct(Labels)
  {
  }

  /** Counting over two lists adds the counts of each. */
  lemma CountAppend(a: seq<string>, b: seq<string>, l: string)
    ensures Count(a + b, l) == Count(a, l) + multiset(b)[l]
  {
  }

  /** A label is counted in the tally once for every reply that endorses it; anything else is never counted. */
  lemma {:induction false} TallyCount(texts: seq<string>, endorses: (string, string) -> bool, l: string)
    ensures Count(Tally(texts, endorses), l) == if l in Labels then EndorsingReplies(texts, endorses, l) else 0
  {
    if |texts| > 0 {
      var init, last := texts[..|texts| - 1], texts[|texts| - 1];
      TallyCount(init, endorses, l);
      LabelsDistinct();
      MatchingCount(Lower(last), Labels, endorses, l);
      CountAppend(Tally(init, endorses), Mentions(last, endorses), l);
    }
  }

  /** So no label is counted more often than there are replies. */
  lemma TallyCountBound(texts: seq<string>, endorses: (string, string) -> bool, l: string)
    ensures Count(Tally(texts, endorses), l) <= |texts|
  {
    TallyCount(texts, endorses, l);
  }

  /**
   * Every pattern the tally searches for holds a capital 'R', and the text it
   * searches has been lowered: no reply ever endorses a label.
   */
  lemma NeverEndorsed(text: string, l: string)
    requires l in Labels
    ensures !Endorses(Lower(text), l)
  {
    NoCapitalInLowered(text, "chose " + l, 6);
    NoCapitalInLowered(text, "prefer " + l, 7);
  }

  lemma {:induction false} NoneMatching(low: string, labels: seq<string>, endorses: (string, string) -> bool)
    requires forall l :: l in labels ==> !endorses(low, l)
    ensures MatchingLabels(low, labels, endorses) == []
  {
    if |labels| > 0 {
      NoneMatching(low, labels[..|labels| - 1], endorses);
    }
  }

  /** The tally that `_analyze_discussion` builds is empty whatever the replies say. */
  lemma {:induction false} TallyAlwaysEmpty(texts: seq<string>)
    ensures Tally(texts, Endorses) == []
  {
    if |texts| > 0 {
      TallyAlwaysEmpty(texts[..|texts| - 1]);
      var t := texts[|texts| - 1];
      forall l | l in Labels
        ensures !Endorses(Lower(t), l)
      {
        NeverEndorsed(t, l);
      }
      NoneMatching(Lower(t), Labels, Endorses);
    }
  }

  // ------------------------------------------------ the tally as intended

  /**
   * Endorsement as the comment on the scan evidently means it: the label is
   * lowered like the reply before it is looked for.
   */
  predicate IntendedEndorses(low: string, lab: string)
  {
    Contains(low, "chose " + Lower(lab)) || Contains(low, "prefer " + Lower(lab))
  }

  /**
   * With the label lowered too, a reply that says it chose or prefers a label,
   * in any mix of cases, endorses that label.
   */
  lemma IntendedEndorsesAt(t: string, l: string, verb: string, i: nat)
    requires l in Labels && (verb == "chose " || verb == "prefer ")
    requires OccursAt(Lower(t), Lower(verb + l), i)
    ensures IntendedEndorses(Lower(t), l)
  {
    LowerConcat(verb, l);
    assert Lower(verb) == verb;
  }

  /** So such a reply puts that label in the corrected tally. */
  lemma IntendedTallyCounts(texts: seq<string>, t: string, l: string, verb: string, i: nat)
    requires t in texts && l in Labels && (verb == "chose " || verb == "prefer ")
    requires OccursAt(Lower(t), Lower(verb + l), i)
    ensures l in Tally(texts, IntendedEndorses)
  {
    IntendedEndorsesAt(t, l, verb, i);
    TallyMembers(texts, IntendedEndorses, l);
  }

  /** Three discussion replies: two endorse R2, with a capital R, and the third only names R1. */
  const ExampleReplies: seq<string> := ["I chose R2 because...", "I prefer R2 here", "R1 is fine"]

  /** A reply that says "chose R2" verbatim counts for R2 under the intended tally, and not as written. */
  lemma ExampleIntendedTally()
    ensures "R2" in Tally(ExampleReplies, IntendedEndorses)
    ensures Tally(ExampleReplies, Endorses) == []
  {
    ExampleFirstReply();
    assert ExampleReplies[0] in ExampleReplies;
    TallyMembers(ExampleReplies, IntendedEndorses, "R2");
    TallyAlwaysEmpty(ExampleReplies);
  }

  /** The first reply endorses R2 under the corrected test. */
  lemma ExampleFirstReply()
    ensures IntendedEndorses(Lower(ExampleReplies[0]), "R2")
  {
    var t := "I " + "chose R2" + " because...";
    assert t == ExampleReplies[0];
    assert t[2..10] == "chose R2";
    LowerKeepsOccurrence(t, "chose R2", 2);
    IntendedEndorsesAt(t, "R2", "chose ", 2);
  }

  /** The second reply endorses R2 under the corrected test. */
  lemma ExampleSecondReply()
    ensures IntendedEndorses(Lower(ExampleReplies[1]), "R2")
  {
    var t := "I " + "prefer R2" + " here";
    assert t == ExampleReplies[1];
    assert t[2..11] == "prefer R2";
    LowerKeepsOccurrence(t, "prefer R2", 2);
    IntendedEndorsesAt(t, "R2", "prefer ", 2);
  }

  /** A label whose digit is missing from a reply is not endorsed by it. */
  lemma NotEndorsedWithoutDigit(t: string, lab: string)
    requires |lab| == 2 && '0' <= lab[1] <= '9' && lab[1] !in t
    ensures !IntendedEndorses(Lower(t), lab)
  {
    var low, d := Lower(t), lab[1];
    LowerAvoids(t, d, d);
    assert ("chose " + Lower(lab))[7] == d;
    assert ("prefer " + Lower(lab))[8] == d;
    AbsentCharNoOccurrence(low, "chose " + Lower(lab), 7);
    AbsentCharNoOccurrence(low, "prefer " + Lower(lab), 8);
  }

  /** A reply with neither "c" nor "p", in either case, endorses nothing. */
  lemma NotEndorsedWithoutVerbs(t: string, lab: string)
    requires 'c' !in t && 'C' !in t && 'p' !in t && 'P' !in t
    ensures !IntendedEndorses(Lower(t), lab)
  {
    var low := Lower(t);
    LowerAvoids(t, 'c', 'C');
    LowerAvoids(t, 'p', 'P');
    AbsentCharNoOccurrence(low, "chose " + Lower(lab), 0);
    AbsentCharNoOccurrence(low, "prefer " + Lower(lab), 0);
  }

  /** A reply without a colon holds neither marker, so it lists no refinement. */
  lemma NoRefinementWithoutColon(t: string)
    requires ':' !in t
    ensures Extract(t).None?
  {
    var low := Lower(t);
    LowerAvoids(t, ':', ':');
    AbsentCharNoOccurrence(low, ImprovementsMarker, 12);
    AbsentCharNoOccurrence(low, RefinementsMarker, 11);
  }

  /** The count of endorsing replies among three, reply by reply. */
  lemma EndorsingThree(a: string, b: string, c: string, endorses: (string, string) -> bool, l: string)
    ensures EndorsingReplies([a, b, c], endorses, l) ==
      (if endorses(Lower(a), l) then 1 else 0) + (if endorses(Lower(b), l) then 1 else 0) + (if endorses(Lower(c), l) then 1 else 0)
  {
    assert [a, b, c][..2] == [a, b] && [a, b][..1] == [a] && [a][..0] == [];
    assert EndorsingReplies([a], endorses, l) == (if endorses(Lower(a), l) then 1 else 0);
    assert EndorsingReplies([a, b], endorses, l) == EndorsingReplies([a], endorses, l) + (if endorses(Lower(b), l) then 1 else 0);
  }

  /** Texts that each yield nothing yield an empty collection. */
  lemma {:induction false} GatherNone(texts: seq<string>, extract: string -> Option<string>)
    requires forall t :: t in texts ==> extract(t).None?
    ensures Gather(texts, extract) == []
  {
    if |texts| > 0 {
      assert texts[|texts| - 1] in texts;
      assert forall t :: t in texts[..|texts| - 1] ==> t in texts;
      GatherNone(texts[..|texts| - 1], extract);
    }
  }

  /** Which characters the example replies lack. */
  lemma ExampleChars()
    ensures '1' !in ExampleReplies[0] && '3' !in ExampleReplies[0] && ':' !in ExampleReplies[0]
    ensures '1' !in ExampleReplies[1] && '3' !in ExampleReplies[1] && ':' !in ExampleReplies[1]
    ensures 'c' !in ExampleReplies[2] && 'C' !in ExampleReplies[2] && ':' !in ExampleReplies[2]
    ensures 'p' !in ExampleReplies[2] && 'P' !in ExampleReplies[2]
  {
    ExampleCharsOf(ExampleReplies[0], ['1', '3', ':']);
    ExampleCharsOf(ExampleReplies[1], ['1', '3', ':']);
    ExampleCharsOf(ExampleReplies[2], ['c', 'C', ':', 'p', 'P']);
  }

  lemma ExampleCharsOf(t: string, absent: seq<char>)
    requires t in ExampleReplies && absent == (if t == ExampleReplies[2] then ['c', 'C', ':', 'p', 'P'] else ['1', '3', ':'])
    ensures forall c :: c in absent ==> c !in t
  {
  }

  /** Two of the example replies endorse R2 under the corrected test. */
  lemma ExampleCountR2()
    ensures EndorsingReplies(ExampleReplies, IntendedEndorses, "R2") == 2
  {
    var a, b, c := ExampleReplies[0], ExampleReplies[1], ExampleReplies[2];
    assert ExampleReplies == [a, b, c];
    ExampleChars();
    ExampleFirstReply();
    ExampleSecondReply();
    NotEndorsedWithoutVerbs(c, "R2");
    EndorsingThree(a, b, c, IntendedEndorses, "R2");
  }

  /** None of the example replies endorses R1 or R3 under the corrected test. */
  lemma ExampleCountOthers(lab: string)
    requires lab == "R1" || lab == "R3"
    ensures EndorsingReplies(ExampleReplies, IntendedEndorses, lab) == 0
  {
    var a, b, c := ExampleReplies[0], ExampleReplies[1], ExampleReplies[2];
    assert ExampleReplies == [a, b, c];
    ExampleChars();
    ExampleOthers(a, b, c, lab);
  }

  lemma ExampleOthers(a: string, b: string, c: string, lab: string)
    requires lab == "R1" || lab == "R3"
    requires lab[1] !in a && lab[1] !in b
    requires 'c' !in c && 'C' !in c && 'p' !in c && 'P' !in c
    ensures EndorsingReplies([a, b, c], IntendedEndorses, lab) == 0
  {
    NotEndorsedWithoutDigit(a, lab);
    NotEndorsedWithoutDigit(b, lab);
    NotEndorsedWithoutVerbs(c, lab);
    EndorsingThree(a, b, c, IntendedEndorses, lab);
  }

  /** None of the example replies lists a refinement. */
  lemma ExampleNoRefinements()
    ensures Refinements(ExampleReplies) == []
  {
    ExampleChars();
    NoRefinementWithoutColon(ExampleReplies[0]);
    NoRefinementWithoutColon(ExampleReplies[1]);
    NoRefinementWithoutColon(ExampleReplies[2]);
    GatherNone(ExampleReplies, Extract);
  }

  /** On the example replies, exactly R2 is endorsed by at least as many replies as R2. */
  lemma ExampleWinner(w: string)
    requires w in Labels
    ensures EndorsingReplies(ExampleReplies, IntendedEndorses, "R2") <= EndorsingReplies(ExampleReplies, IntendedEndorses, w)
      <==> w == "R2"
  {
    ExampleCountR2();
    if w != "R2" {
      ExampleCountOthers(w);
    }
  }

  // ------------------------------------------------------- the refinements

  /**
   * `piece` is `low.split(marker)[1]`: it starts right after the first
   * `marker` in `low` and runs up to the next one or to the end.
   */
  ghost predicate SegmentAfter(low: string, marker: string, piece: string)
  {
    && |marker| > 0 && Contains(low, marker)
    && var b := FirstIndex(low, marker) + |marker|;
       && b + |piece| <= |low| && low[b..b + |piece|] == piece
       && (b + |piece| == |low| || OccursAt(low, marker, b + |piece|))
       && forall j :: b <= j < b + |piece| ==> !OccursAt(low, marker, j)
  }

  /** `r` is `low.split(marker)[1].strip()`: the segment after the first marker, stripped. */
  ghost predicate StrippedSegment(low: string, marker: string, r: string)
  {
    exists piece :: SegmentAfter(low, marker, piece) && r == Strip(piece)
  }

  /**
   * What one reply contributes to `all_refinements`. A reply contributes
   * exactly when its lowered text holds one of the markers. The refinement is
   * the stripped segment of the lowered reply after the first "improvements:"
   * or, only when that marker is absent, after the first "refinements:". It is
   * lowercase, trimmed, and holds no further copy of the marker it was cut at.
   */
  function Extract(text: string): (r: Option<string>)
    ensures var low := Lower(text);
      && (r.Some? <==> Contains(low, ImprovementsMarker) || Contains(low, RefinementsMarker))
      && (Contains(low, ImprovementsMarker) ==> r.Some? && StrippedSegment(low, ImprovementsMarker, r.value))
      && (!Contains(low, ImprovementsMarker) && Contains(low, RefinementsMarker) ==>
            r.Some? && StrippedSegment(low, RefinementsMarker, r.value))
      && (r.Some? ==> forall i :: 0 <= i < |r.value| ==> !IsUpper(r.value[i]))
      && (r.Some? ==> Trimmed(r.value))
      && (Contains(low, ImprovementsMarker) ==> !Contains(r.value, ImprovementsMarker))
      && (!Contains(low, ImprovementsMarker) && r.Some? ==> !Contains(r.value, RefinementsMarker))
  {
    var low := Lower(text);
    if Contains(low, ImprovementsMarker) then Some(Cut(low, ImprovementsMarker))
    else if Contains(low, RefinementsMarker) then Some(Cut(low, RefinementsMarker))
    else None
  }

  /** `low.split(marker)[1].strip()`, which no longer holds the marker. */
  function Cut(low: string, marker: string): (r: string)
    requires |marker| > 0 && Contains(low, marker)
    requires forall i :: 0 <= i < |low| ==> !IsUpper(low[i])
    ensures StrippedSegment(low, marker, r)
    ensures forall i :: 0 <= i < |r| ==> !IsUpper(r[i])
    ensures !Contains(r, marker)
    ensures Trimmed(r)
  {
    CutFacts(low, marker);
    Strip(SplitSecond(low, marker))
  }

  /** The facts `Cut` promises, about the stripped segment after the first marker. */
  lemma CutFacts(low: string, marker: string)
    requires |marker| > 0 && Contains(low, marker)
    requires forall i :: 0 <= i < |low| ==> !IsUpper(low[i])
    ensures var r := Strip(SplitSecond(low, marker));
      && StrippedSegment(low, marker, r)
      && (forall i :: 0 <= i < |r| ==> !IsUpper(r[i]))
      && !Contains(r, marker)
  {
    var piece := SplitSecond(low, marker);
    SplitSegment(low, marker);
    var b := FirstIndex(low, marker) + |marker|;
    SlicedLowered(low, piece, b);
    SlicedNoMarker(low, marker, piece, b);
  }

  /** `split(marker)[1]` is the segment after the first marker. */
  lemma SplitSegment(low: string, marker: string)
    requires |marker| > 0 && Contains(low, marker)
    ensures SegmentAfter(low, marker, SplitSecond(low, marker))
  {
  }

  /** A stripped slice of lowered text is lowercase. */
  lemma SlicedLowered(low: string, piece: string, b: nat)
    requires forall i :: 0 <= i < |low| ==> !IsUpper(low[i])
    requires b + |piece| <= |low| && low[b..b + |piece|] == piece
    ensures forall i :: 0 <= i < |Strip(piece)| ==> !IsUpper(Strip(piece)[i])
  {
    SliceKeepsLowered(low, b, piece);
    StripIsSlice(piece);
    SliceKeepsLowered(piece, LeadingSpaces(piece), Strip(piece));
  }

  /** A stripped slice of `low` at `b`, in which no marker starts, holds no marker. */
  lemma SlicedNoMarker(low: string, marker: string, piece: string, b: nat)
    requires |marker| > 0
    requires b + |piece| <= |low| && low[b..b + |piece|] == piece
    requires forall j :: b <= j < b + |piece| ==> !OccursAt(low, marker, j)
    ensures !Contains(Strip(piece), marker)
  {
    var r, a := Strip(piece), LeadingSpaces(piece);
    NoOccurrenceInSlice(low, marker, b, b + |piece|, piece);
    StripIsSlice(piece);
    NoOccurrenceInSlice(piece, marker, a, a + |r|, r);
  }

  /** The list `all_refinements` once the replies have been scanned in order. */
  function Refinements(texts: seq<string>): (r: seq<string>)
    ensures |r| <= |texts|
  {
    Gather(texts, Extract)
  }

  /** What `extract` yields for each text, in order, skipping the texts it yields nothing for. */
  function Gather(texts: seq<string>, extract: string -> Option<string>): (r: seq<string>)
    ensures |r| <= |texts|
  {
    if |texts| == 0 then []
    else
      var tail := match extract(texts[|texts| - 1]) case None => [] case Some(x) => [x];
      Gather(texts[..|texts| - 1], extract) + tail
  }

  lemma {:induction false} GatherMembers(texts: seq<string>, extract: string -> Option<string>, x: string)
    ensures x in Gather(texts, extract) <==> exists t :: t in texts && extract(t) == Some(x)
  {
    if |texts| > 0 {
      var init := texts[..|texts| - 1];
      GatherMembers(init, extract, x);
      assert texts == init + [texts[|texts| - 1]];
      if t :| t in texts && extract(t) == Some(x) {
        if t != texts[|texts| - 1] {
          assert t in init;
        }
      }
    }
  }

  /** Collecting over two runs of texts collects over each in turn. */
  lemma {:induction false} GatherAppend(a: seq<string>, b: seq<string>, extract: string -> Option<string>)
    ensures Gather(a + b, extract) == Gather(a, extract) + Gather(b, extract)
  {
    if |b| == 0 {
      assert a + b == a;
    } else {
      var init := b[..|b| - 1];
      GatherAppend(a, init, extract);
      assert (a + b)[..|a + b| - 1] == a + init;
      assert (a + b)[|a + b| - 1] == b[|b| - 1];
    }
  }

  /**
   * `all_refinements` is built reply by reply: the list for two runs of
   * replies is the list for the first followed by the list for the second.
   */
  lemma RefinementsAppend(a: seq<string>, b: seq<string>)
    ensures Refinements(a + b) == Refinements(a) + Refinements(b)
  {
    GatherAppend(a, b, Extract);
  }

  /** A single reply contributes one refinement, what it yields, when it yields one, and none otherwise. */
  lemma RefinementsOfOne(t: string)
    ensures |Refinements([t])| == if Extract(t).Some? then 1 else 0
    ensures Extract(t).Some? ==> Refinements([t]) == [Extract(t).value]
  {
    assert [t][..0] == [];
  }

  /** A refinement is listed exactly when some reply yields it. */
  lemma RefinementsMembers(texts: seq<string>, x: string)
    ensures x in Refinements(texts) <==> exists t :: t in texts && Extract(t) == Some(x)
  {
    GatherMembers(texts, Extract, x);
  }

  /** A reply whose marker is written with a capital: its refinement comes out trimmed and lowered. */
  lemma ExampleRefinement()
    ensures Extract("Note Improvements: add examples") == Some("add examples")
  {
    var low := ExampleLowered();
    ExampleLowering();
    ExampleMarkerAt5();
    ExampleNoSecondMarker();
    ExampleStrip();
    assert FirstIndex(low, ImprovementsMarker) == 5;
    assert low[18..] == " add examples";
  }

  /** The lowered example reply, written so that the marker's place is plain. */
  function ExampleLowered(): string
  {
    "note " + ImprovementsMarker + " add examples"
  }

  lemma ExampleLowering()
    ensures Lower("Note Improvements: add examples") == ExampleLowered()
  {
    var head, marker, tail := "Note ", "Improvements:", " add examples";
    assert "Note Improvements: add examples" == head + marker + tail;
    LowerConcat(head + marker, tail);
    LowerConcat(head, marker);
    ExampleLowerHead();
    ExampleLowerMarker();
    ExampleLowerTail();
  }

  lemma ExampleLowerHead()
    ensures Lower("Note ") == "note "
  {
  }

  lemma ExampleLowerMarker()
    ensures Lower("Improvements:") == ImprovementsMarker
  {
  }

  lemma ExampleLowerTail()
    ensures Lower(" add examples") == " add examples"
  {
  }

  lemma ExampleMarkerAt5()
    ensures FindFrom(ExampleLowered(), ImprovementsMarker, 0) == Some(5)
  {
    var low := ExampleLowered();
    assert low[5..18] == ImprovementsMarker;
    forall k | 0 <= k < 5
      ensures !OccursAt(low, ImprovementsMarker, k)
    {
      assert low[k..k + 13][0] == low[k];
    }
    assert FindFrom(low, ImprovementsMarker, 4) == Some(5);
    assert FindFrom(low, ImprovementsMarker, 3) == Some(5);
    assert FindFrom(low, ImprovementsMarker, 2) == Some(5);
    assert FindFrom(low, ImprovementsMarker, 1) == Some(5);
  }

  lemma ExampleNoSecondMarker()
    ensures FindFrom(ExampleLowered(), ImprovementsMarker, 18) == None
  {
    var low := ExampleLowered();
    assert low[18..31][0] == low[18];
  }

  lemma ExampleStrip()
    ensures Strip(" add examples") == "add examples"
  {
    assert LeadingSpaces(" add examples") == 1;
    assert " add examples"[1..] == "add examples";
    assert TrailingSpaces("add examples") == 0;
  }

  // -------------------------------------------- winner and de-duplication

  /** `chosen_labels.count(l)`: scanning the list, how many of its entries are `l`. */
  function Count(tally: seq<string>, l: string): (c: nat)
    ensures c == multiset(tally)[l] && c <= |tally|
  {
    if |tally| == 0 then 0
    else
      var init, last := tally[..|tally| - 1], tally[|tally| - 1];
      assert tally == init + [last];
      Count(init, l) + (if last == l then 1 else 0)
  }

  /**
   * `max(set(chosen_labels), key=chosen_labels.count)`: a label of the tally
   * counted at least as often as any other. The set is visited in an order the
   * program does not fix, so which of several tied labels wins is left open.
   */
  method MostFrequent(tally: seq<string>) returns (r: Result<string, AnalysisError>)
    ensures r.Failure? <==> tally == []
    ensures r.Failure? ==> r.error == NoConsensus
    ensures r.Success? ==> r.value in tally && forall l :: l in tally ==> Count(tally, l) <= Count(tally, r.value)
  {
    if tally == [] {
      return Failure(NoConsensus);
    }
    var candidates := set l | l in tally;
    assert tally[0] in candidates;
    var best :| best in candidates;
    var bestCount := Count(tally, best);
    var pending := candidates - {best};
    while pending != {}
      invariant pending <= candidates && best in candidates
      invariant bestCount == Count(tally, best)
      invariant forall l :: l in candidates && l !in pending ==> Count(tally, l) <= bestCount
      decreases pending
    {
      var l :| l in pending;
      var c := Count(tally, l);
      if c > bestCount {
        best, bestCount := l, c;
      }
      pending := pending - {l};
    }
    return Success(best);
  }

  /**
   * `list(set(all_refinements))`: each refinement once, in an order the
   * program does not fix.
   */
  method Unique(items: seq<string>) returns (u: seq<string>)
    ensures Distinct(u)
    ensures forall x :: x in u <==> x in items
  {
    var pending := set x | x in items;
    u := [];
    while pending != {}
      invariant forall x :: x in pending ==> x in items
      invariant forall x :: x in u <==> x in items && x !in pending
      invariant Distinct(u)
      decreases pending
    {
      var x :| x in pending;
      u := u + [x];
      pending := pending - {x};
    }
  }

  // -------------------------------------------------------- the analysis

  /**
   * `_analyze_discussion`: scans the replies in order, building the tally and
   * the refinement list, then picks the most frequent label and joins the
   * distinct refinements with newlines. `unique` is the de-duplicated list the
   * join was made from. `endorses` is the test of line 127: `Endorses` as the
   * program writes it, `IntendedEndorses` as corrected.
   */
  method AnalyzeDiscussion(discussionResponses: seq<string>, endorses: (string, string) -> bool)
    returns (r: Result<(string, string), AnalysisError>, ghost unique: seq<string>)
    ensures r.Failure? <==> Tally(discussionResponses, endorses) == []
    ensures r.Failure? ==> r.error == NoConsensus
    ensures r.Success? ==>
      var tally := Tally(discussionResponses, endorses);
      r.value.0 in tally && forall l :: l in tally ==> Count(tally, l) <= Count(tally, r.value.0)
    ensures r.Success? ==>
      && Distinct(unique)
      && (forall x :: x in unique <==> x in Refinements(discussionResponses))
      && r.value.1 == Join(unique, "\n")
  {
    var chosenLabels: seq<string> := [];
    var allRefinements: seq<string> := [];
    for i := 0 to |discussionResponses|
      invariant chosenLabels == Tally(discussionResponses[..i], endorses)
      invariant allRefinements == Refinements(discussionResponses[..i])
    {
      var response := discussionResponses[i];
      assert discussionResponses[..i + 1][..i] == discussionResponses[..i];
      var low := Lower(response);
      var found := ScanLabels(low, endorses);
      chosenLabels := chosenLabels + found;
      if Contains(low, ImprovementsMarker) {
        allRefinements := allRefinements + [Strip(SplitSecond(low, ImprovementsMarker))];
      } else if Contains(low, RefinementsMarker) {
        allRefinements := allRefinements + [Strip(SplitSecond(low, RefinementsMarker))];
      }
    }
    assert discussionResponses[..|discussionResponses|] == discussionResponses;
    var chosen := MostFrequent(chosenLabels);
    if chosen.Failure? {
      return Failure(chosen.error), [];
    }
    var uniqueRefinements := Unique(allRefinements);
    unique := uniqueRefinements;
    r := Success((chosen.value, Join(uniqueRefinements, "\n")));
  }

  /** The inner loop of the scan: the labels the lowered reply `low` endorses, in label order. */
  method ScanLabels(low: string, endorses: (string, string) -> bool) returns (found: seq<string>)
    ensures found == MatchingLabels(low, Labels, endorses)
  {
    found := [];
    for j := 0 to |Labels|
      invariant found == MatchingLabels(low, Labels[..j], endorses)
    {
      var lab := Labels[j];
      assert Labels[..j + 1][..j] == Labels[..j];
      if endorses(low, lab) {
        found := found + [lab];
      }
    }
    assert Labels[..|Labels|] == Labels;
  }

  /**
   * `facilitate_discussion` once the three discussion replies are in: the
   * analysis never finds a label, so the step always fails.
   */
  method FacilitateDiscussion(discussionResponses: seq<string>) returns (r: Result<(string, string), AnalysisError>)
    ensures r == Failure(NoConsensus)
  {
    ghost var unique;
    r, unique := AnalyzeDiscussion(discussionResponses, Endorses);
    TallyAlwaysEmpty(discussionResponses);
  }

  /**
   * The same step with the label lowered before it is looked for: it succeeds
   * exactly when some reply endorses some label. The winner is one of the
   * three labels and is endorsed by at least as many replies as any other
   * label; the refinement text joins, with newlines, a repeat-free list
   * holding exactly the extracted refinements.
   */
  method IntendedFacilitateDiscussion(discussionResponses: seq<string>)
    returns (r: Result<(string, string), AnalysisError>, ghost unique: seq<string>)
    ensures r.Success? <==> exists t, l :: t in discussionResponses && l in Labels && IntendedEndorses(Lower(t), l)
    ensures r.Failure? ==> r.error == NoConsensus
    ensures r.Success? ==> r.value.0 in Labels
    ensures r.Success? ==>
      var tally := Tally(discussionResponses, IntendedEndorses);
      r.value.0 in tally && forall l :: l in tally ==> Count(tally, l) <= Count(tally, r.value.0)
    ensures r.Success? ==> forall l :: l in Labels ==>
      EndorsingReplies(discussionResponses, IntendedEndorses, l) <= EndorsingReplies(discussionResponses, IntendedEndorses, r.value.0)
    ensures r.Success? ==>
      && Distinct(unique)
      && (forall x :: x in unique <==> x in Refinements(discussionResponses))
      && r.value.1 == Join(unique, "\n")
  {
    r, unique := AnalyzeDiscussion(discussionResponses, IntendedEndorses);
    if r.Success? {
      var w := r.value.0;
      TallyMembers(discussionResponses, IntendedEndorses, w);
      forall l | l in Labels
        ensures EndorsingReplies(discussionResponses, IntendedEndorses, l) <= EndorsingReplies(discussionResponses, IntendedEndorses, w)
      {
        TallyCount(discussionResponses, IntendedEndorses, l);
        TallyCount(discussionResponses, IntendedEndorses, w);
      }
    } else {
      forall t, l | t in discussionResponses && l in Labels
        ensures !IntendedEndorses(Lower(t), l)
      {
        TallyMembers(discussionResponses, IntendedEndorses, l);
      }
    }
  }

  /** On the example replies the corrected step picks R2 and has no refinements to pass on. */
  method ExampleIntendedDiscussion() returns (r: Result<(string, string), AnalysisError>)
    ensures r == Success(("R2", ""))
  {
    ExampleFirstReply();
    assert ExampleReplies[0] in ExampleReplies && "R2" in Labels;
    ghost var unique;
    r, unique := IntendedFacilitateDiscussion(ExampleReplies);
    ExampleWinner(r.value.0);
    ExampleNoRefinements();
    assert forall i :: 0 <= i < |unique| ==> unique[i] in unique;
    assert unique == [];
  }
}
