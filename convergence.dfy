/** The response convergence detector of `collectResponse` (fill.js).

    Each poll of the page yields a `Snapshot`: the assistant-tagged texts and images and
    the texts and images of the fallback selectors. The wall-clock deadline becomes the
    end of a finite sequence of snapshots. The detector tracks the last candidate text
    and the most recent non-empty image list, and stops once the text length, or on a
    tick without text the image count, has stayed unchanged for `stableChecks` ticks. */
module Convergence {
  import opened JsText

  datatype Snapshot = Snapshot(
    assistantTexts: seq<string>,
    textResponses: seq<string>,
    assistantImages: seq<string>,
    images: seq<string>)

  /** `s.length`: the number of UTF-16 code units, two for a character outside the Basic
      Multilingual Plane. */
  function Utf16Length(s: string): (n: nat)
    ensures |s| <= n <= 2 * |s|
  {
    if s == [] then 0 else (if s[0] < '\U{10000}' then 1 else 2) + Utf16Length(s[1..])
  }

  /** "ab" and "\U{1F600}" have the same `length`, two code units. */
  lemma Utf16LengthExample()
    ensures Utf16Length("ab") == Utf16Length("\U{1F600}") == 2
  {
  }

  /** What the DOM query does to the inner texts it finds: trim each, drop the empty ones. */
  function CleanTexts(raw: seq<string>): (r: seq<string>)
    ensures |r| <= |raw|
  {
    if raw == [] then []
    else
      var t := Trim(raw[0]);
      var rest := CleanTexts(raw[1..]);
      if t == [] then rest else [t] + rest
  }

  /** One step of the cleaning: the first text is kept, trimmed, exactly when it is not
      blank, in front of the cleaned rest. */
  lemma CleanTextsCons(raw: seq<string>)
    requires raw != []
    ensures forall x | x in CleanTexts(raw) :: x in CleanTexts(raw[1..]) || (x == Trim(raw[0]) && x != [])
    ensures Trim(raw[0]) != [] ==> Trim(raw[0]) in CleanTexts(raw)
    ensures forall x | x in CleanTexts(raw[1..]) :: x in CleanTexts(raw)
  {
    var t := Trim(raw[0]);
    var rest := CleanTexts(raw[1..]);
    assert CleanTexts(raw) == if t == [] then rest else [t] + rest;
  }

  /** The same step, with the order: the first text, if it is not blank, comes first. */
  lemma CleanTextsStep(raw: seq<string>)
    requires raw != []
    ensures CleanTexts(raw) == (if AllSpace(raw[0]) then [] else [Trim(raw[0])]) + CleanTexts(raw[1..])
  {
    TrimEmptyIffBlank(raw[0]);
  }

  /** Proved once for any element type, where it is cheap. */
  lemma AppendAssociative<T>(x: seq<T>, y: seq<T>, z: seq<T>)
    ensures x + (y + z) == (x + y) + z
  {
  }

  /** `CleanTextsStep` for a list that starts with the texts of `a`. */
  lemma CleanTextsStepOfAppend(a: seq<string>, b: seq<string>)
    requires a != []
    ensures CleanTexts(a + b) == (if AllSpace(a[0]) then [] else [Trim(a[0])]) + CleanTexts(a[1..] + b)
  {
    var ab := a + b;
    assert ab[0] == a[0] && ab[1..] == a[1..] + b;
    CleanTextsStep(ab);
  }

  /** Cleaning works text by text, so it distributes over concatenation and keeps the
      order of the texts it keeps. */
  lemma {:induction false} CleanTextsAppend(a: seq<string>, b: seq<string>)
    ensures CleanTexts(a + b) == CleanTexts(a) + CleanTexts(b)
  {
    if a == [] {
      assert a + b == b;
    } else {
      var h := if AllSpace(a[0]) then [] else [Trim(a[0])];
      CleanTextsStepOfAppend(a, b);
      CleanTextsAppend(a[1..], b);
      AppendAssociative(h, CleanTexts(a[1..]), CleanTexts(b));
      CleanTextsStep(a);
    }
  }

  /** Blank texts leave nothing behind. */
  lemma {:induction false} CleanTextsOfBlanks(raw: seq<string>)
    requires forall j :: 0 <= j < |raw| ==> AllSpace(raw[j])
    ensures CleanTexts(raw) == []
  {
    if raw != [] {
      CleanTextsStep(raw);
      CleanTextsOfBlanks(raw[1..]);
    }
  }

  /** A single text that is not blank is kept, trimmed. */
  lemma CleanTextsOfOne(x: string)
    requires !AllSpace(x)
    ensures CleanTexts([x]) == [Trim(x)]
  {
    CleanTextsStep([x]);
    assert [x][1..] == [];
  }

  /** The last text the query returns, the one `textCandidates[length - 1]` picks, is the
      trimmed form of the last inner text that is not blank. */
  lemma LastCleanText(before: seq<string>, x: string, after: seq<string>)
    requires !AllSpace(x)
    requires forall j :: 0 <= j < |after| ==> AllSpace(after[j])
    ensures CleanTexts(before + [x] + after) == CleanTexts(before) + [Trim(x)]
    ensures Last(CleanTexts(before + [x] + after)) == Trim(x)
  {
    CleanTextsAppend(before + [x], after);
    CleanTextsOfBlanks(after);
    CleanTextsAppend(before, [x]);
    CleanTextsOfOne(x);
  }

  /** Every text the DOM query keeps is trimmed and non-empty. */
  lemma {:induction false} CleanTextsAreTrimmed(raw: seq<string>)
    ensures forall x | x in CleanTexts(raw) :: x != [] && IsTrimmed(x)
  {
    if raw != [] {
      CleanTextsCons(raw);
      CleanTextsAreTrimmed(raw[1..]);
    }
  }

  /** Every text that is not all whitespace is kept, trimmed, and every kept text is the
      trimmed form of one of the raw texts. */
  lemma {:induction false} CleanTextsKeepsNonBlank(raw: seq<string>)
    ensures forall x | x in raw && !AllSpace(x) :: Trim(x) in CleanTexts(raw)
    ensures forall x | x in CleanTexts(raw) :: exists y :: y in raw && x == Trim(y)
  {
    if raw != [] {
      CleanTextsCons(raw);
      CleanTextsKeepsNonBlank(raw[1..]);
      forall x | x in raw && !AllSpace(x)
        ensures Trim(x) in CleanTexts(raw)
      {
        TrimEmptyIffBlank(x);
        if x != raw[0] {
          assert x in raw[1..];
        }
      }
      forall x | x in CleanTexts(raw)
        ensures exists y :: y in raw && x == Trim(y)
      {
        if x in CleanTexts(raw[1..]) {
          var y :| y in raw[1..] && x == Trim(y);
          assert y in raw;
        } else {
          assert raw[0] in raw;
        }
      }
    }
  }

  /** A snapshot as the DOM query produces it: every text candidate trimmed and non-empty. */
  predicate WellFormed(s: Snapshot) {
    && (forall x :: x in s.assistantTexts ==> x != [] && IsTrimmed(x))
    && (forall x :: x in s.textResponses ==> x != [] && IsTrimmed(x))
  }

  /** The snapshots the DOM query builds from the raw inner texts are well formed. */
  lemma QueriedSnapshotIsWellFormed(
    rawAssistantTexts: seq<string>, rawTextResponses: seq<string>,
    assistantImages: seq<string>, images: seq<string>)
    ensures WellFormed(Snapshot(CleanTexts(rawAssistantTexts), CleanTexts(rawTextResponses), assistantImages, images))
  {
    CleanTextsAreTrimmed(rawAssistantTexts);
    CleanTextsAreTrimmed(rawTextResponses);
  }

  /** The assistant-tagged list wins; the fallback list is used only when it is empty. */
  function Preferred(tagged: seq<string>, fallback: seq<string>): seq<string> {
    if |tagged| > 0 then tagged else fallback
  }

  /** The tagged list when it has an entry, else the fallback list; so nothing is offered
      exactly when both lists are empty. */
  lemma PreferredIsFirstNonEmpty(tagged: seq<string>, fallback: seq<string>)
    ensures tagged != [] ==> Preferred(tagged, fallback) == tagged
    ensures tagged == [] ==> Preferred(tagged, fallback) == fallback
    ensures Preferred(tagged, fallback) == [] <==> tagged == [] && fallback == []
  {
  }

  /** The texts of a tick: the assistant-tagged ones when there are any, else the fallback ones. */
  function TextCandidates(s: Snapshot): seq<string> {
    Preferred(s.assistantTexts, s.textResponses)
  }

  /** The images of a tick: the assistant-tagged ones when there are any, else all images found. */
  function ImageCandidates(s: Snapshot): seq<string> {
    Preferred(s.assistantImages, s.images)
  }

  /** A tick offers text exactly when one of its two text lists is non-empty, and the
      assistant-tagged list wins. */
  lemma TextCandidatesPreferAssistant(s: Snapshot)
    ensures s.assistantTexts != [] ==> TextCandidates(s) == s.assistantTexts
    ensures s.assistantTexts == [] ==> TextCandidates(s) == s.textResponses
    ensures TextCandidates(s) == [] <==> s.assistantTexts == [] && s.textResponses == []
  {
  }

  /** The same choice for images. */
  lemma ImageCandidatesPreferAssistant(s: Snapshot)
    ensures s.assistantImages != [] ==> ImageCandidates(s) == s.assistantImages
    ensures s.assistantImages == [] ==> ImageCandidates(s) == s.images
    ensures ImageCandidates(s) == [] <==> s.assistantImages == [] && s.images == []
  {
  }

  /** The loop's local variables. */
  datatype Tracker = Tracker(
    finalText: string,
    finalImages: seq<string>,
    lastLength: nat,
    stableCount: nat,
    lastImageCount: nat,
    imageStableCount: nat)

  const Start := Tracker("", [], 0, 0, 0, 0)

  /** The text half of a tick: adopt the last candidate and update the length counter. */
  function ObserveText(t: Tracker, texts: seq<string>): (r: Tracker)
    requires texts != []
    ensures r.finalText == Last(texts) && r.lastLength == Utf16Length(Last(texts))
    ensures r.stableCount > 0 <==> Utf16Length(Last(texts)) == t.lastLength
    ensures r.stableCount > 0 ==> r.stableCount == t.stableCount + 1
    ensures r.finalImages == t.finalImages && r.lastImageCount == t.lastImageCount
         && r.imageStableCount == t.imageStableCount
  {
    var text := Last(texts);
    if Utf16Length(text) == t.lastLength then t.(finalText := text, stableCount := t.stableCount + 1)
    else t.(finalText := text, stableCount := 0, lastLength := Utf16Length(text))
  }

  /** The image half of a tick: adopt the list and update the count counter. */
  function ObserveImages(t: Tracker, imgs: seq<string>): (r: Tracker)
    requires imgs != []
    ensures r.finalImages == imgs && r.lastImageCount == |imgs|
    ensures r.imageStableCount > 0 <==> |imgs| == t.lastImageCount
    ensures r.imageStableCount > 0 ==> r.imageStableCount == t.imageStableCount + 1
    ensures r.finalText == t.finalText && r.lastLength == t.lastLength && r.stableCount == t.stableCount
  {
    if |imgs| == t.lastImageCount then t.(finalImages := imgs, imageStableCount := t.imageStableCount + 1)
    else t.(finalImages := imgs, imageStableCount := 0, lastImageCount := |imgs|)
  }

  /** Both halves of a tick, as when neither half ends the loop. */
  function Observe(t: Tracker, s: Snapshot): Tracker {
    var texts := TextCandidates(s);
    var afterText := if texts != [] then ObserveText(t, texts) else t;
    var imgs := ImageCandidates(s);
    if imgs != [] then ObserveImages(afterText, imgs) else afterText
  }

  datatype TickOutcome = Converged(state: Tracker) | Pending(state: Tracker)

  /** One iteration of the loop body. Text convergence breaks out before the images of
      the tick are looked at; image convergence needs a tick without text candidates. */
  function Step(t: Tracker, s: Snapshot, stableChecks: int): (r: TickOutcome)
    ensures r.Pending? ==> r.state == Observe(t, s)
    ensures r.Converged? ==>
      (TextCandidates(s) != [] && r.state.stableCount >= stableChecks)
      || (ImageCandidates(s) != [] && r.state.imageStableCount >= stableChecks)
  {
    var texts := TextCandidates(s);
    var afterText := if texts != [] then ObserveText(t, texts) else t;
    if texts != [] && afterText.stableCount >= stableChecks then Converged(afterText)
    else
      var imgs := ImageCandidates(s);
      var afterImages := if imgs != [] then ObserveImages(afterText, imgs) else afterText;
      if imgs != [] && texts == [] && afterImages.imageStableCount >= stableChecks then Converged(afterImages)
      else Pending(afterImages)
  }

  /** How the loop ended: its last state, the number of ticks taken, and whether it
      converged (as opposed to running out of time). */
  datatype Halt = Halt(state: Tracker, ticks: nat, converged: bool)

  /** The loop over the snapshots still to come, `ticks` of them already taken. */
  function Poll(rest: seq<Snapshot>, stableChecks: int, t: Tracker, ticks: nat): (h: Halt)
    ensures ticks <= h.ticks <= ticks + |rest|
    ensures h.converged ==> h.ticks > ticks
    ensures !h.converged ==> h.ticks == ticks + |rest|
    decreases |rest|
  {
    if rest == [] then Halt(t, ticks, false)
    else match Step(t, rest[0], stableChecks)
      case Converged(t') => Halt(t', ticks + 1, true)
      case Pending(t') => Poll(rest[1..], stableChecks, t', ticks + 1)
  }

  /** What `collectResponse` resolves to, or the "no reply found" error it throws. */
  datatype Reply = Reply(text: string, images: seq<string>) | NoReply

  function Conclude(t: Tracker): (r: Reply)
    ensures r == NoReply <==> AllSpace(t.finalText) && t.finalImages == []
    ensures r != NoReply ==> r == Reply(t.finalText, t.finalImages)
  {
    TrimEmptyIffBlank(t.finalText);
    if Trim(t.finalText) == [] && t.finalImages == [] then NoReply
    else Reply(t.finalText, t.finalImages)
  }

  /** The outcome of `collectResponse`: the text and images the loop ended with, or the
      "no reply" error when the text is blank and there are no images. */
  function Collect(snapshots: seq<Snapshot>, stableChecks: int): (r: Reply)
    ensures var t := Poll(snapshots, stableChecks, Start, 0).state;
      (r == NoReply <==> AllSpace(t.finalText) && t.finalImages == [])
      && (r.Reply? ==> r.text == t.finalText && r.images == t.finalImages)
  {
    Conclude(Poll(snapshots, stableChecks, Start, 0).state)
  }

  /** `collectResponse`, over a finite sequence of polls in place of the deadline. */
  method CollectResponse(snapshots: seq<Snapshot>, stableChecks: int) returns (reply: Reply, ticks: nat)
    ensures ticks == Poll(snapshots, stableChecks, Start, 0).ticks
    ensures reply == Collect(snapshots, stableChecks)
  {
    var finalText: string := "";
    var finalImages: seq<string> := [];
    var lastLength: nat := 0;
    var stableCount: nat := 0;
    var lastImageCount: nat := 0;
    var imageStableCount: nat := 0;
    ticks := 0;
    while ticks < |snapshots|
      invariant ticks <= |snapshots|
      invariant Poll(snapshots, stableChecks, Start, 0)
        == Poll(snapshots[ticks..], stableChecks,
                Tracker(finalText, finalImages, lastLength, stableCount, lastImageCount, imageStableCount), ticks)
    {
      ghost var before := Tracker(finalText, finalImages, lastLength, stableCount, lastImageCount, imageStableCount);
      var responses := snapshots[ticks];
      assert snapshots[ticks..][0] == responses && snapshots[ticks..][1..] == snapshots[ticks + 1..];
      ticks := ticks + 1;

      var textCandidates := if |responses.assistantTexts| > 0 then responses.assistantTexts else responses.textResponses;
      if |textCandidates| > 0 {
        finalText := textCandidates[|textCandidates| - 1];
        if Utf16Length(finalText) == lastLength {
          stableCount := stableCount + 1;
        } else {
          stableCount := 0;
          lastLength := Utf16Length(finalText);
        }
        if stableCount >= stableChecks {
          assert Step(before, responses, stableChecks)
            == Converged(Tracker(finalText, finalImages, lastLength, stableCount, lastImageCount, imageStableCount));
          break;
        }
      }

      var imageCandidates := if |responses.assistantImages| > 0 then responses.assistantImages else responses.images;
      if |imageCandidates| > 0 {
        finalImages := imageCandidates;
        if |imageCandidates| == lastImageCount {
          imageStableCount := imageStableCount + 1;
        } else {
          imageStableCount := 0;
          lastImageCount := |imageCandidates|;
        }
        if |textCandidates| == 0 && imageStableCount >= stableChecks {
          assert Step(before, responses, stableChecks)
            == Converged(Tracker(finalText, finalImages, lastLength, stableCount, lastImageCount, imageStableCount));
          break;
        }
      }
      assert Step(before, responses, stableChecks)
        == Pending(Tracker(finalText, finalImages, lastLength, stableCount, lastImageCount, imageStableCount));
    }
    if Trim(finalText) == [] && |finalImages| == 0 {
      reply := NoReply;
    } else {
      reply := Reply(finalText, finalImages);
    }
  }

  // ---------------------------------------------------------------------------------
  // A reference description of the tracker, computed from the polls seen so far
  // rather than tick by tick.

  /** The text each tick with text candidates settles on, in order. */
  function ChosenTexts(p: seq<Snapshot>): seq<string> {
    if p == [] then []
    else
      var c := TextCandidates(Last(p));
      ChosenTexts(p[..|p| - 1]) + (if c != [] then [Last(c)] else [])
  }

  /** The image list of each tick with image candidates, in order. */
  function ChosenImages(p: seq<Snapshot>): seq<seq<string>> {
    if p == [] then []
    else
      var c := ImageCandidates(Last(p));
      ChosenImages(p[..|p| - 1]) + (if c != [] then [c] else [])
  }

  /** How many times in a row the last element of `xs` repeats its predecessor. */
  function TrailingRepeats(xs: seq<int>): nat {
    if |xs| < 2 || Last(xs) != xs[|xs| - 2] then 0 else TrailingRepeats(xs[..|xs| - 1]) + 1
  }

  /** The `length` of each text, in UTF-16 code units. */
  function Lengths(ts: seq<string>): (r: seq<int>)
    ensures |r| == |ts| && forall i :: 0 <= i < |ts| ==> r[i] == Utf16Length(ts[i])
  {
    if ts == [] then [] else Lengths(ts[..|ts| - 1]) + [Utf16Length(Last(ts))]
  }

  lemma LengthsSnoc(ts: seq<string>, x: string)
    ensures Lengths(ts + [x]) == Lengths(ts) + [Utf16Length(x)]
  {
    assert (ts + [x])[..|ts|] == ts;
  }

  /** The number of images in each list. */
  function Counts(ls: seq<seq<string>>): (r: seq<int>)
    ensures |r| == |ls| && forall i :: 0 <= i < |ls| ==> r[i] == |ls[i]|
  {
    if ls == [] then [] else Counts(ls[..|ls| - 1]) + [|Last(ls)|]
  }

  /** The tracker after the polls `p`, had none of them ended the loop. The counters
      compare against an initial length and count of 0. */
  function Expected(p: seq<Snapshot>): Tracker {
    var texts := ChosenTexts(p);
    var imgs := ChosenImages(p);
    Tracker(
      if texts == [] then "" else Last(texts),
      if imgs == [] then [] else Last(imgs),
      if texts == [] then 0 else Utf16Length(Last(texts)),
      TrailingRepeats([0] + Lengths(texts)),
      if imgs == [] then 0 else |Last(imgs)|,
      TrailingRepeats([0] + Counts(imgs)))
  }

  /** Tick `i` (counting from 1) ends the loop, given that no earlier one did. */
  predicate ConvergesAt(snapshots: seq<Snapshot>, stableChecks: int, i: nat)
    requires 1 <= i <= |snapshots|
  {
    var s := snapshots[i - 1];
    var e := Expected(snapshots[..i]);
    if TextCandidates(s) != [] then e.stableCount >= stableChecks
    else ImageCandidates(s) != [] && e.imageStableCount >= stableChecks
  }

  /** The state the loop leaves when it converges at tick `i`: on a text tick the images
      of that tick are never looked at. */
  function HaltState(snapshots: seq<Snapshot>, i: nat): Tracker
    requires 1 <= i <= |snapshots|
  {
    var e := Expected(snapshots[..i]);
    if TextCandidates(snapshots[i - 1]) != [] then
      var before := Expected(snapshots[..i - 1]);
      e.(finalImages := before.finalImages, lastImageCount := before.lastImageCount,
         imageStableCount := before.imageStableCount)
    else e
  }

  lemma AppendTrailing(xs: seq<int>, x: int)
    requires xs != []
    ensures TrailingRepeats(xs + [x]) == if x == Last(xs) then TrailingRepeats(xs) + 1 else 0
  {
    assert (xs + [x])[..|xs|] == xs;
  }

  lemma ExpectedTextStep(p: seq<Snapshot>, s: Snapshot)
    ensures var e, e' := Expected(p), Expected(p + [s]);
      var c := TextCandidates(s);
      if c != [] then e'.finalText == Last(c) && e'.lastLength == Utf16Length(Last(c))
                      && e'.stableCount == (if Utf16Length(Last(c)) == e.lastLength then e.stableCount + 1 else 0)
      else e'.finalText == e.finalText && e'.lastLength == e.lastLength && e'.stableCount == e.stableCount
  {
    if TextCandidates(s) != [] {
      ExpectedTextOfTextTick(p, s);
    } else {
      ExpectedTextOfImageTick(p, s);
    }
  }

  lemma ExpectedTextOfTextTick(p: seq<Snapshot>, s: Snapshot)
    requires TextCandidates(s) != []
    ensures var e, e' := Expected(p), Expected(p + [s]);
      var x := Last(TextCandidates(s));
      e'.finalText == x && e'.lastLength == Utf16Length(x)
      && e'.stableCount == (if Utf16Length(x) == e.lastLength then e.stableCount + 1 else 0)
  {
    var texts := ChosenTexts(p);
    var x := Last(TextCandidates(s));
    ChosenTextsSnoc(p, s);
    LeadingZeroLengthsSnoc(texts, x);
    LastOfLeadingZeroLengths(texts);
    AppendTrailing([0] + Lengths(texts), Utf16Length(x));
  }

  lemma ExpectedTextOfImageTick(p: seq<Snapshot>, s: Snapshot)
    requires TextCandidates(s) == []
    ensures var e, e' := Expected(p), Expected(p + [s]);
      e'.finalText == e.finalText && e'.lastLength == e.lastLength && e'.stableCount == e.stableCount
  {
    ChosenTextsSnoc(p, s);
  }

  lemma LastOfLeadingZeroLengths(ts: seq<string>)
    ensures Last([0] + Lengths(ts)) == if ts == [] then 0 else Utf16Length(Last(ts))
  {
  }

  lemma ChosenTextsSnoc(p: seq<Snapshot>, s: Snapshot)
    ensures var c := TextCandidates(s);
      (c != [] ==> ChosenTexts(p + [s]) == ChosenTexts(p) + [Last(c)])
      && (c == [] ==> ChosenTexts(p + [s]) == ChosenTexts(p))
  {
    var q := p + [s];
    assert q[..|q| - 1] == p;
    assert ChosenTexts(p) + [] == ChosenTexts(p);
  }

  lemma LeadingZeroLengthsSnoc(ts: seq<string>, x: string)
    ensures [0] + Lengths(ts + [x]) == ([0] + Lengths(ts)) + [Utf16Length(x)]
  {
    LengthsSnoc(ts, x);
    AppendAssociative([0], Lengths(ts), [Utf16Length(x)]);
  }

  lemma ExpectedImageStep(p: seq<Snapshot>, s: Snapshot)
    ensures var e, e' := Expected(p), Expected(p + [s]);
      var d := ImageCandidates(s);
      if d != [] then e'.finalImages == d && e'.lastImageCount == |d|
                      && e'.imageStableCount == (if |d| == e.lastImageCount then e.imageStableCount + 1 else 0)
      else e'.finalImages == e.finalImages && e'.lastImageCount == e.lastImageCount
           && e'.imageStableCount == e.imageStableCount
  {
    if ImageCandidates(s) != [] {
      ExpectedImagesOfImageTick(p, s);
    } else {
      ExpectedImagesOfTextTick(p, s);
    }
  }

  lemma ExpectedImagesOfImageTick(p: seq<Snapshot>, s: Snapshot)
    requires ImageCandidates(s) != []
    ensures var e, e' := Expected(p), Expected(p + [s]);
      var d := ImageCandidates(s);
      e'.finalImages == d && e'.lastImageCount == |d|
      && e'.imageStableCount == (if |d| == e.lastImageCount then e.imageStableCount + 1 else 0)
  {
    var imgs := ChosenImages(p);
    var d := ImageCandidates(s);
    ChosenImagesSnoc(p, s);
    LeadingZeroCountsSnoc(imgs, d);
    LastOfLeadingZeroCounts(imgs);
    AppendTrailing([0] + Counts(imgs), |d|);
  }

  lemma ExpectedImagesOfTextTick(p: seq<Snapshot>, s: Snapshot)
    requires ImageCandidates(s) == []
    ensures var e, e' := Expected(p), Expected(p + [s]);
      e'.finalImages == e.finalImages && e'.lastImageCount == e.lastImageCount
      && e'.imageStableCount == e.imageStableCount
  {
    ChosenImagesSnoc(p, s);
  }

  lemma ChosenImagesSnoc(p: seq<Snapshot>, s: Snapshot)
    ensures var d := ImageCandidates(s);
      (d != [] ==> ChosenImages(p + [s]) == ChosenImages(p) + [d])
      && (d == [] ==> ChosenImages(p + [s]) == ChosenImages(p))
  {
    var q := p + [s];
    assert q[..|q| - 1] == p;
    assert ChosenImages(p) + [] == ChosenImages(p);
  }

  lemma LastOfLeadingZeroCounts(ls: seq<seq<string>>)
    ensures Last([0] + Counts(ls)) == if ls == [] then 0 else |Last(ls)|
  {
  }

  lemma LeadingZeroCountsSnoc(ls: seq<seq<string>>, d: seq<string>)
    ensures [0] + Counts(ls + [d]) == ([0] + Counts(ls)) + [|d|]
  {
    assert (ls + [d])[..|ls|] == ls;
    AppendAssociative([0], Counts(ls), [|d|]);
  }

  /** The reference tracker of one more poll is one tick of the loop body: the length
      counter goes up by one when the new text is as long as the last one and restarts
      from 0 otherwise, and likewise the image counter with the number of images. */
  lemma ExpectedStep(p: seq<Snapshot>, s: Snapshot)
    ensures Expected(p + [s]) == Observe(Expected(p), s)
  {
    var e, e' := Expected(p), Expected(p + [s]);
    var o := Observe(e, s);
    ExpectedTextStep(p, s);
    ExpectedImageStep(p, s);
    assert e'.finalText == o.finalText && e'.lastLength == o.lastLength && e'.stableCount == o.stableCount;
    assert e'.finalImages == o.finalImages && e'.lastImageCount == o.lastImageCount
      && e'.imageStableCount == o.imageStableCount;
  }

  /** `ExpectedTextStep` and `ExpectedImageStep` at tick `i` of a sequence of polls. */
  lemma ExpectedAt(snapshots: seq<Snapshot>, i: nat)
    requires 1 <= i <= |snapshots|
    ensures var e, e' := Expected(snapshots[..i - 1]), Expected(snapshots[..i]);
      var c := TextCandidates(snapshots[i - 1]);
      var d := ImageCandidates(snapshots[i - 1]);
      && (c != [] ==> e'.finalText == Last(c) && e'.stableCount == (if Utf16Length(Last(c)) == e.lastLength then e.stableCount + 1 else 0))
      && (c == [] ==> e'.finalText == e.finalText && e'.stableCount == e.stableCount)
      && (d != [] ==> e'.finalImages == d)
      && (d == [] ==> e'.finalImages == e.finalImages)
  {
    assert snapshots[..i] == snapshots[..i - 1] + [snapshots[i - 1]];
    ExpectedTextStep(snapshots[..i - 1], snapshots[i - 1]);
    ExpectedImageStep(snapshots[..i - 1], snapshots[i - 1]);
  }

  /** A tick of the loop body, stated against `Observe`. */
  lemma StepObserves(t: Tracker, s: Snapshot, stableChecks: int)
    ensures var o := Observe(t, s);
      var texts := TextCandidates(s);
      var imgs := ImageCandidates(s);
      && (Step(t, s, stableChecks).Converged? <==>
            if texts != [] then o.stableCount >= stableChecks
            else imgs != [] && o.imageStableCount >= stableChecks)
      && Step(t, s, stableChecks).state ==
            if Step(t, s, stableChecks).Converged? && texts != [] then
              o.(finalImages := t.finalImages, lastImageCount := t.lastImageCount,
                 imageStableCount := t.imageStableCount)
            else o
  {
  }

  /** Tick `j + 1` of the loop, taken from the reference state of the first `j` polls. */
  lemma StepAgainstReference(snapshots: seq<Snapshot>, stableChecks: int, j: nat)
    requires j < |snapshots|
    ensures var r := Step(Expected(snapshots[..j]), snapshots[j], stableChecks);
      && (r.Converged? <==> ConvergesAt(snapshots, stableChecks, j + 1))
      && (r.Converged? ==> r.state == HaltState(snapshots, j + 1))
      && (r.Pending? ==> r.state == Expected(snapshots[..j + 1]))
  {
    var s := snapshots[j];
    assert snapshots[..j + 1] == snapshots[..j] + [s];
    assert snapshots[..j + 1][..j] == snapshots[..j];
    ExpectedStep(snapshots[..j], s);
    StepObserves(Expected(snapshots[..j]), s, stableChecks);
  }

  lemma {:induction false} PollFrom(snapshots: seq<Snapshot>, stableChecks: int, j: nat)
    requires j <= |snapshots|
    requires forall i :: 1 <= i <= j ==> !ConvergesAt(snapshots, stableChecks, i)
    ensures var h := Poll(snapshots[j..], stableChecks, Expected(snapshots[..j]), j);
      && j <= h.ticks <= |snapshots|
      && (forall i :: 1 <= i < h.ticks ==> !ConvergesAt(snapshots, stableChecks, i))
      && (h.converged ==> 1 <= h.ticks && ConvergesAt(snapshots, stableChecks, h.ticks)
                          && h.state == HaltState(snapshots, h.ticks))
      && (!h.converged ==> h.ticks == |snapshots| && h.state == Expected(snapshots)
                           && forall i :: 1 <= i <= |snapshots| ==> !ConvergesAt(snapshots, stableChecks, i))
    decreases |snapshots| - j
  {
    if j == |snapshots| {
      assert snapshots[..j] == snapshots;
    } else {
      var t := Expected(snapshots[..j]);
      var r := Step(t, snapshots[j], stableChecks);
      assert snapshots[j..][0] == snapshots[j] && snapshots[j..][1..] == snapshots[j + 1..];
      assert Poll(snapshots[j..], stableChecks, t, j)
        == if r.Converged? then Halt(r.state, j + 1, true)
           else Poll(snapshots[j + 1..], stableChecks, r.state, j + 1);
      StepAgainstReference(snapshots, stableChecks, j);
      if r.Pending? {
        PollFrom(snapshots, stableChecks, j + 1);
      }
    }
  }

  /** The loop stops exactly at the first tick whose stability count reaches
      `stableChecks`, and otherwise takes every poll and keeps the last state. */
  lemma PollStopsAtFirstConvergence(snapshots: seq<Snapshot>, stableChecks: int)
    ensures var h := Poll(snapshots, stableChecks, Start, 0);
      && h.ticks <= |snapshots|
      && (forall i :: 1 <= i < h.ticks ==> !ConvergesAt(snapshots, stableChecks, i))
      && (h.converged ==> 1 <= h.ticks && ConvergesAt(snapshots, stableChecks, h.ticks)
                          && h.state == HaltState(snapshots, h.ticks))
      && (!h.converged ==> h.ticks == |snapshots| && h.state == Expected(snapshots)
                           && forall i :: 1 <= i <= |snapshots| ==> !ConvergesAt(snapshots, stableChecks, i))
  {
    assert snapshots[0..] == snapshots && snapshots[..0] == [];
    PollFrom(snapshots, stableChecks, 0);
  }

  /** When the loop converges, it does so at a tick where the counter reached
      `stableChecks`, and leaves that tick's state. */
  lemma PollConverged(snapshots: seq<Snapshot>, stableChecks: int)
    requires Poll(snapshots, stableChecks, Start, 0).converged
    ensures var h := Poll(snapshots, stableChecks, Start, 0);
      && 1 <= h.ticks <= |snapshots| && ConvergesAt(snapshots, stableChecks, h.ticks)
      && h.state == HaltState(snapshots, h.ticks)
  {
    PollStopsAtFirstConvergence(snapshots, stableChecks);
  }

  /** When the loop runs out of polls, it leaves the reference state of all of them. */
  lemma PollTimedOut(snapshots: seq<Snapshot>, stableChecks: int)
    requires !Poll(snapshots, stableChecks, Start, 0).converged
    ensures Poll(snapshots, stableChecks, Start, 0).state == Expected(snapshots)
  {
    PollStopsAtFirstConvergence(snapshots, stableChecks);
  }

  /** The first tick at which the counter reaches `stableChecks` is the one the loop
      stops at. */
  lemma FirstConvergenceIsHalt(snapshots: seq<Snapshot>, stableChecks: int, n: nat)
    requires 1 <= n <= |snapshots| && ConvergesAt(snapshots, stableChecks, n)
    requires forall i :: 1 <= i < n ==> !ConvergesAt(snapshots, stableChecks, i)
    ensures var h := Poll(snapshots, stableChecks, Start, 0);
      h.converged && h.ticks == n && h.state == HaltState(snapshots, n)
  {
    PollStopsAtFirstConvergence(snapshots, stableChecks);
  }

  // ---------------------------------------------------------------------------------
  // Consequences.

  /** A streamed answer: a partial text, then the full text three times, the last time
      with an image. With `stableChecks` 2 the loop converges on the fourth tick with the
      full text, and the image that tick carries is never collected. */
  lemma StreamingAnswerConverges(partial: string, full: string, image: string)
    requires partial != [] && full != [] && IsTrimmed(full) && Utf16Length(partial) != Utf16Length(full)
    ensures var snaps := [Snapshot([partial], [], [], []), Snapshot([full], [], [], []),
                          Snapshot([full], [], [], []), Snapshot([full], [], [image], [])];
      && Poll(snaps, 2, Start, 0) == Halt(Tracker(full, [], Utf16Length(full), 2, 0, 0), 4, true)
      && Collect(snaps, 2) == Reply(full, [])
  {
    var snaps := [Snapshot([partial], [], [], []), Snapshot([full], [], [], []),
                  Snapshot([full], [], [], []), Snapshot([full], [], [image], [])];
    var t1 := Tracker(partial, [], Utf16Length(partial), 0, 0, 0);
    var t2 := Tracker(full, [], Utf16Length(full), 0, 0, 0);
    var t3 := Tracker(full, [], Utf16Length(full), 1, 0, 0);
    var t4 := Tracker(full, [], Utf16Length(full), 2, 0, 0);
    assert Step(Start, snaps[0], 2) == Pending(t1);
    assert Step(t1, snaps[1], 2) == Pending(t2);
    assert Step(t2, snaps[2], 2) == Pending(t3);
    assert Step(t3, snaps[3], 2) == Converged(t4);
    assert Poll(snaps[3..], 2, t3, 3) == Halt(t4, 4, true);
    assert snaps[2..][1..] == snaps[3..];
    assert Poll(snaps[2..], 2, t2, 2) == Halt(t4, 4, true);
    assert snaps[1..][1..] == snaps[2..];
    assert Poll(snaps[1..], 2, t1, 1) == Halt(t4, 4, true);
    TrimOfTrimmed(full);
  }

  /** Lengths are `length`s, counted in UTF-16 code units: a text changing from "ab" to an
      emoji keeps its length, so with `stableChecks` 2 the loop already stops at tick 3. */
  lemma SameLengthTextsConverge(first: string, next: string)
    requires first != [] && Utf16Length(first) == Utf16Length(next)
    ensures var snaps := [Snapshot([first], [], [], []), Snapshot([next], [], [], []), Snapshot([next], [], [], [])];
      Poll(snaps, 2, Start, 0) == Halt(Tracker(next, [], Utf16Length(next), 2, 0, 0), 3, true)
  {
    var snaps := [Snapshot([first], [], [], []), Snapshot([next], [], [], []), Snapshot([next], [], [], [])];
    var t1 := Tracker(first, [], Utf16Length(first), 0, 0, 0);
    var t2 := Tracker(next, [], Utf16Length(next), 1, 0, 0);
    var t3 := Tracker(next, [], Utf16Length(next), 2, 0, 0);
    assert Step(Start, snaps[0], 2) == Pending(t1);
    assert Step(t1, snaps[1], 2) == Pending(t2);
    assert Step(t2, snaps[2], 2) == Converged(t3);
    assert Poll(snaps[2..], 2, t2, 2) == Halt(t3, 3, true);
    assert snaps[1..][1..] == snaps[2..];
    assert Poll(snaps[1..], 2, t1, 1) == Halt(t3, 3, true);
  }

  /** "ab" followed twice by U+1F600: the loop stops at tick 3 with the emoji. */
  lemma EmojiAfterTwoLettersConverges()
    ensures var snaps := [Snapshot(["ab"], [], [], []), Snapshot(["\U{1F600}"], [], [], []),
                          Snapshot(["\U{1F600}"], [], [], [])];
      Poll(snaps, 2, Start, 0) == Halt(Tracker("\U{1F600}", [], 2, 2, 0, 0), 3, true)
  {
    Utf16LengthExample();
    SameLengthTextsConverge("ab", "\U{1F600}");
  }

  lemma {:induction false} ChosenTextsOfTextTicks(p: seq<Snapshot>)
    requires forall i :: 0 <= i < |p| ==> TextCandidates(p[i]) != []
    ensures |ChosenTexts(p)| == |p|
    ensures forall i :: 0 <= i < |p| ==> ChosenTexts(p)[i] == Last(TextCandidates(p[i]))
  {
    if p != [] {
      var q := p[..|p| - 1];
      assert forall i :: 0 <= i < |q| ==> q[i] == p[i];
      ChosenTextsOfTextTicks(q);
      var x := Last(TextCandidates(Last(p)));
      assert ChosenTexts(p) == ChosenTexts(q) + [x];
      assert forall i :: 0 <= i < |q| ==> ChosenTexts(p)[i] == ChosenTexts(q)[i];
    }
  }

  lemma {:induction false} ChosenImagesOfImageTicks(p: seq<Snapshot>)
    requires forall i :: 0 <= i < |p| ==> ImageCandidates(p[i]) != []
    ensures |ChosenImages(p)| == |p|
    ensures forall i :: 0 <= i < |p| ==> ChosenImages(p)[i] == ImageCandidates(p[i])
  {
    if p != [] {
      var q := p[..|p| - 1];
      ChosenImagesOfImageTicks(q);
      var c := ImageCandidates(Last(p));
      assert c != [] by {
        assert c == ImageCandidates(p[|p| - 1]);
      }
      var r := ChosenImages(p);
      assert r == ChosenImages(q) + [c];
      forall i | 0 <= i < |p|
        ensures r[i] == ImageCandidates(p[i])
      {
        if i < |q| {
          assert r[i] == ChosenImages(q)[i] && q[i] == p[i];
        }
      }
    }
  }

  lemma {:induction false} ChosenTextsOfTextlessTicks(p: seq<Snapshot>)
    requires forall i :: 0 <= i < |p| ==> TextCandidates(p[i]) == []
    ensures ChosenTexts(p) == []
  {
    if p != [] {
      var q := p[..|p| - 1];
      assert forall i :: 0 <= i < |q| ==> q[i] == p[i];
      ChosenTextsOfTextlessTicks(q);
    }
  }

  /** A run of `m` equal non-zero values after the initial 0 repeats `m - 1` times. */
  lemma {:induction false} TrailingRepeatsOfConstant(xs: seq<int>, v: int)
    requires xs != [] && v != 0
    requires forall i :: 0 <= i < |xs| ==> xs[i] == v
    ensures TrailingRepeats([0] + xs) == |xs| - 1
  {
    var ys := [0] + xs;
    if |xs| > 1 {
      assert ys[..|ys| - 1] == [0] + xs[..|xs| - 1];
      TrailingRepeatsOfConstant(xs[..|xs| - 1], v);
    }
  }

  lemma ConstantTextCounter(snapshots: seq<Snapshot>, len: nat, i: nat)
    requires 1 <= i <= |snapshots| && len > 0
    requires forall j :: 0 <= j < |snapshots| ==>
      TextCandidates(snapshots[j]) != [] && Utf16Length(Last(TextCandidates(snapshots[j]))) == len
    ensures Expected(snapshots[..i]).stableCount == i - 1
    ensures Expected(snapshots[..i]).finalText == Last(TextCandidates(snapshots[i - 1]))
  {
    var p := snapshots[..i];
    assert forall j :: 0 <= j < |p| ==> p[j] == snapshots[j];
    ChosenTextsOfTextTicks(p);
    var texts := ChosenTexts(p);
    var xs := Lengths(texts);
    assert forall j :: 0 <= j < |xs| ==> xs[j] == Utf16Length(texts[j]) == len;
    TrailingRepeatsOfConstant(xs, len);
    assert Last(texts) == texts[i - 1];
  }

  /** With a text of constant length on every tick, tick `i` ends the loop exactly when
      `i - 1 >= stableChecks`, leaving that tick's text. */
  lemma ConstantTextTick(snapshots: seq<Snapshot>, stableChecks: int, len: nat, i: nat)
    requires 1 <= i <= |snapshots| && len > 0
    requires forall j :: 0 <= j < |snapshots| ==>
      TextCandidates(snapshots[j]) != [] && Utf16Length(Last(TextCandidates(snapshots[j]))) == len
    ensures ConvergesAt(snapshots, stableChecks, i) <==> i - 1 >= stableChecks
    ensures HaltState(snapshots, i).finalText == Last(TextCandidates(snapshots[i - 1]))
  {
    ConstantTextCounter(snapshots, len, i);
    assert TextCandidates(snapshots[i - 1]) != [];
  }

  lemma ConstantImageCounter(snapshots: seq<Snapshot>, count: nat, i: nat)
    requires 1 <= i <= |snapshots| && count > 0
    requires forall j :: 0 <= j < |snapshots| ==> |ImageCandidates(snapshots[j])| == count
    ensures Expected(snapshots[..i]).imageStableCount == i - 1
    ensures Expected(snapshots[..i]).finalImages == ImageCandidates(snapshots[i - 1])
  {
    var p := snapshots[..i];
    assert forall j :: 0 <= j < |p| ==> p[j] == snapshots[j];
    ChosenImagesOfImageTicks(p);
    var imgs := ChosenImages(p);
    var xs := Counts(imgs);
    assert forall j :: 0 <= j < |xs| ==> xs[j] == |imgs[j]| == count;
    TrailingRepeatsOfConstant(xs, count);
    assert Last(imgs) == imgs[i - 1];
  }

  /** With no text and a constant number of images on every tick, tick `i` ends the loop
      exactly when `i - 1 >= stableChecks`, leaving that tick's images. */
  lemma ConstantImageTick(snapshots: seq<Snapshot>, stableChecks: int, count: nat, i: nat)
    requires 1 <= i <= |snapshots| && count > 0
    requires forall j :: 0 <= j < |snapshots| ==>
      TextCandidates(snapshots[j]) == [] && |ImageCandidates(snapshots[j])| == count
    ensures ConvergesAt(snapshots, stableChecks, i) <==> i - 1 >= stableChecks
    ensures HaltState(snapshots, i).finalImages == ImageCandidates(snapshots[i - 1])
  {
    ConstantImageCounter(snapshots, count, i);
    assert TextCandidates(snapshots[i - 1]) == [] && ImageCandidates(snapshots[i - 1]) != [];
  }

  /** When every tick offers a text of the same non-zero length, the loop converges at
      exactly tick `stableChecks + 1`, the first at which the counter reaches `stableChecks`. */
  lemma ConstantTextLengthConverges(snapshots: seq<Snapshot>, stableChecks: nat, len: nat)
    requires stableChecks < |snapshots| && len > 0
    requires forall i :: 0 <= i < |snapshots| ==>
      TextCandidates(snapshots[i]) != [] && Utf16Length(Last(TextCandidates(snapshots[i]))) == len
    ensures var h := Poll(snapshots, stableChecks, Start, 0);
      h.converged && h.ticks == stableChecks + 1
      && h.state.finalText == Last(TextCandidates(snapshots[stableChecks]))
  {
    forall i | 1 <= i <= stableChecks + 1
      ensures ConvergesAt(snapshots, stableChecks, i) <==> i == stableChecks + 1
    {
      ConstantTextTick(snapshots, stableChecks, len, i);
    }
    ConstantTextTick(snapshots, stableChecks, len, stableChecks + 1);
    FirstConvergenceIsHalt(snapshots, stableChecks, stableChecks + 1);
  }

  /** With no text at all and the same number of images on every tick, the loop converges
      on the images alone, at tick `stableChecks + 1`. */
  lemma ConstantImageCountConverges(snapshots: seq<Snapshot>, stableChecks: nat, count: nat)
    requires stableChecks < |snapshots| && count > 0
    requires forall i :: 0 <= i < |snapshots| ==>
      TextCandidates(snapshots[i]) == [] && |ImageCandidates(snapshots[i])| == count
    ensures var h := Poll(snapshots, stableChecks, Start, 0);
      h.converged && h.ticks == stableChecks + 1
      && h.state.finalImages == ImageCandidates(snapshots[stableChecks])
  {
    forall i | 1 <= i <= stableChecks + 1
      ensures ConvergesAt(snapshots, stableChecks, i) <==> i == stableChecks + 1
    {
      ConstantImageTick(snapshots, stableChecks, count, i);
    }
    ConstantImageTick(snapshots, stableChecks, count, stableChecks + 1);
    FirstConvergenceIsHalt(snapshots, stableChecks, stableChecks + 1);
  }

  /** If every tick has text candidates, image stability never ends the loop: whenever it
      converges, the text counter has reached `stableChecks`. */
  lemma TextOnEveryTickRulesOutImageConvergence(snapshots: seq<Snapshot>, stableChecks: int)
    requires forall i :: 0 <= i < |snapshots| ==> TextCandidates(snapshots[i]) != []
    ensures var h := Poll(snapshots, stableChecks, Start, 0);
      h.converged ==> h.state.stableCount >= stableChecks
  {
    PollStopsAtFirstConvergence(snapshots, stableChecks);
  }

  /** The text the loop ends with is the reference text of the polls it took. */
  lemma FinalTextOfPoll(snapshots: seq<Snapshot>, stableChecks: int)
    ensures var h := Poll(snapshots, stableChecks, Start, 0);
      h.ticks <= |snapshots| && h.state.finalText == Expected(snapshots[..h.ticks]).finalText
  {
    var h := Poll(snapshots, stableChecks, Start, 0);
    if h.converged {
      PollConverged(snapshots, stableChecks);
    } else {
      PollTimedOut(snapshots, stableChecks);
      assert snapshots[..h.ticks] == snapshots;
    }
  }

  /** The text the loop ends with is the last element of the preferred list of the last
      tick taken, the assistant-tagged one whenever it is non-empty. */
  lemma FinalTextIsLastPreferredCandidate(snapshots: seq<Snapshot>, stableChecks: int)
    ensures var h := Poll(snapshots, stableChecks, Start, 0);
      h.ticks >= 1 ==>
        var s := snapshots[h.ticks - 1];
        && (s.assistantTexts != [] ==> h.state.finalText == Last(s.assistantTexts))
        && (s.assistantTexts == [] && s.textResponses != [] ==> h.state.finalText == Last(s.textResponses))
  {
    FinalTextOfPoll(snapshots, stableChecks);
    var h := Poll(snapshots, stableChecks, Start, 0);
    if h.ticks >= 1 {
      ExpectedAt(snapshots, h.ticks);
    }
  }

  lemma {:induction false} ImagelessTicksKeepChosenImages(p: seq<Snapshot>, q: seq<Snapshot>)
    requires forall i :: 0 <= i < |q| ==> ImageCandidates(q[i]) == []
    ensures ChosenImages(p + q) == ChosenImages(p)
  {
    if q != [] {
      var pq := p + q;
      var q' := q[..|q| - 1];
      assert forall i :: 0 <= i < |q'| ==> q'[i] == q[i];
      assert pq[..|pq| - 1] == p + q' && Last(pq) == Last(q);
      ImagelessTicksKeepChosenImages(p, q');
      assert ImageCandidates(Last(q)) == [];
    } else {
      assert p + q == p;
    }
  }

  /** Ticks without image candidates leave the collected images alone. */
  lemma ImagelessTicksKeepImages(p: seq<Snapshot>, q: seq<Snapshot>)
    requires forall i :: 0 <= i < |q| ==> ImageCandidates(q[i]) == []
    ensures Expected(p + q).finalImages == Expected(p).finalImages
  {
    ImagelessTicksKeepChosenImages(p, q);
  }

  /** Every chosen text is one of the candidates, so trimmed and non-empty. */
  lemma {:induction false} ChosenTextsWellFormed(p: seq<Snapshot>)
    requires forall i :: 0 <= i < |p| ==> WellFormed(p[i])
    ensures forall x :: x in ChosenTexts(p) ==> x != [] && IsTrimmed(x)
  {
    if p != [] {
      var q := p[..|p| - 1];
      assert forall i :: 0 <= i < |q| ==> q[i] == p[i];
      ChosenTextsWellFormed(q);
      var c := TextCandidates(Last(p));
      assert c != [] ==> Last(c) in c;
    }
  }

  lemma {:induction false} ChosenImagesNonEmpty(p: seq<Snapshot>)
    ensures forall l :: l in ChosenImages(p) ==> l != []
  {
    if p != [] {
      ChosenImagesNonEmpty(p[..|p| - 1]);
    }
  }

  lemma {:induction false} ChosenTextsEmpty(p: seq<Snapshot>)
    ensures ChosenTexts(p) == [] <==> forall i :: 0 <= i < |p| ==> TextCandidates(p[i]) == []
  {
    if p != [] {
      var q := p[..|p| - 1];
      assert forall i :: 0 <= i < |q| ==> q[i] == p[i];
      ChosenTextsEmpty(q);
    }
  }

  lemma {:induction false} ChosenImagesEmpty(p: seq<Snapshot>)
    ensures ChosenImages(p) == [] <==> forall i :: 0 <= i < |p| ==> ImageCandidates(p[i]) == []
  {
    if p != [] {
      var q := p[..|p| - 1];
      assert forall i :: 0 <= i < |q| ==> q[i] == p[i];
      ChosenImagesEmpty(q);
    }
  }

  /** Had the loop taken every poll in `p`, it would fail exactly when none of them
      offered a text or an image. */
  lemma ReferenceReplyFails(p: seq<Snapshot>)
    requires forall i :: 0 <= i < |p| ==> WellFormed(p[i])
    ensures Conclude(Expected(p)) == NoReply <==>
      forall i :: 0 <= i < |p| ==> TextCandidates(p[i]) == [] && ImageCandidates(p[i]) == []
  {
    ChosenTextsWellFormed(p);
    ChosenImagesNonEmpty(p);
    ChosenTextsEmpty(p);
    ChosenImagesEmpty(p);
    var texts := ChosenTexts(p);
    if texts != [] {
      assert Last(texts) in texts;
      TrimOfTrimmed(Last(texts));
    }
    var imgs := ChosenImages(p);
    if imgs != [] {
      assert Last(imgs) in imgs;
    }
  }

  /** The state left by a tick that ends the loop holds a reply. */
  lemma HaltReplies(snapshots: seq<Snapshot>, stableChecks: int, i: nat)
    requires 1 <= i <= |snapshots| && WellFormed(snapshots[i - 1])
    requires ConvergesAt(snapshots, stableChecks, i)
    ensures TextCandidates(snapshots[i - 1]) != [] || ImageCandidates(snapshots[i - 1]) != []
    ensures Conclude(HaltState(snapshots, i)) != NoReply
  {
    ExpectedAt(snapshots, i);
    var c := TextCandidates(snapshots[i - 1]);
    if c != [] {
      assert Last(c) in c;
      TrimOfTrimmed(Last(c));
      assert HaltState(snapshots, i).finalText == Last(c);
    } else {
      assert HaltState(snapshots, i).finalImages == ImageCandidates(snapshots[i - 1]);
    }
  }

  /** A loop that converges has seen a text or an image on its last tick, and replies. */
  lemma ConvergedLoopReplies(snapshots: seq<Snapshot>, stableChecks: int)
    requires forall i :: 0 <= i < |snapshots| ==> WellFormed(snapshots[i])
    requires Poll(snapshots, stableChecks, Start, 0).converged
    ensures var h := Poll(snapshots, stableChecks, Start, 0);
      && 1 <= h.ticks <= |snapshots|
      && (TextCandidates(snapshots[h.ticks - 1]) != [] || ImageCandidates(snapshots[h.ticks - 1]) != [])
      && Conclude(h.state) != NoReply
  {
    PollConverged(snapshots, stableChecks);
    var h := Poll(snapshots, stableChecks, Start, 0);
    HaltReplies(snapshots, stableChecks, h.ticks);
  }

  /** The collection fails exactly when no tick ever offered a text or an image, whether the
      loop converged or ran out of time; otherwise the latest text and images come back. */
  lemma NoReplyExactlyWhenNothingSeen(snapshots: seq<Snapshot>, stableChecks: int)
    requires forall i :: 0 <= i < |snapshots| ==> WellFormed(snapshots[i])
    ensures Collect(snapshots, stableChecks) == NoReply <==>
      forall i :: 0 <= i < |snapshots| ==>
        TextCandidates(snapshots[i]) == [] && ImageCandidates(snapshots[i]) == []
  {
    if Poll(snapshots, stableChecks, Start, 0).converged {
      ConvergedLoopReplies(snapshots, stableChecks);
    } else {
      PollTimedOut(snapshots, stableChecks);
      ReferenceReplyFails(snapshots);
    }
  }
}
