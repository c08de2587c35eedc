/** The PII masker: an ordered list of patterns, each replacing what it finds in
    the text left by the patterns before it, with a record of every span. */
module Masking {

  type Text = seq<char>

  datatype Span = Span(lo: nat, hi: nat)

  /** find stands for the compiled expression: all its matches, left to right. */
  datatype Pattern = Pattern(name: string, find: Text -> seq<Span>, replacement: Text)

  /** A detected span, at its position in the text the pattern was applied to. */
  datatype Match = Match(name: string, value: Text, lo: nat, hi: nat)

  ghost predicate ProperFrom(text: Text, spans: seq<Span>, from: nat) {
    if spans == [] then from <= |text|
    else from <= spans[0].lo < spans[0].hi <= |text| && ProperFrom(text, spans[1..], spans[0].hi)
  }

  /** The matches of an expression are sorted, disjoint and not empty. */
  ghost predicate Finds(p: Pattern) {
    forall text :: ProperFrom(text, p.find(text), 0)
  }

  // ---- One pattern ---------------------------------------------------------

  /** ReplaceAll on the text from position from on. */
  function Replace(text: Text, spans: seq<Span>, replacement: Text, from: nat): Text
    requires ProperFrom(text, spans, from)
  {
    if spans == [] then text[from..]
    else text[from..spans[0].lo] + replacement + Replace(text, spans[1..], replacement, spans[0].hi)
  }

  function Record(text: Text, spans: seq<Span>, name: string, from: nat): seq<Match>
    requires ProperFrom(text, spans, from)
  {
    if spans == [] then []
    else
      [Match(name, text[spans[0].lo..spans[0].hi], spans[0].lo, spans[0].hi)]
      + Record(text, spans[1..], name, spans[0].hi)
  }

  /** Puts recorded values back where their placeholders are. */
  function Undo(masked: Text, record: seq<Match>, replacement: Text, from: nat): Text {
    if record == [] then masked
    else
      var gap := record[0].lo - from;
      if gap < 0 || gap + |replacement| > |masked| then masked
      else
        masked[..gap] + record[0].value
        + Undo(masked[gap + |replacement|..], record[1..], replacement, record[0].hi)
  }

  lemma UndoStep(gap: Text, m: Match, rest: Text, more: seq<Match>, replacement: Text, from: nat)
    requires m.lo == from + |gap|
    ensures Undo(gap + replacement + rest, [m] + more, replacement, from)
         == gap + m.value + Undo(rest, more, replacement, m.hi)
  {
    var masked := gap + replacement + rest;
    assert masked[..|gap|] == gap && masked[|gap| + |replacement|..] == rest && ([m] + more)[1..] == more;
  }

  lemma Pieces(text: Text, from: nat, lo: nat, hi: nat)
    requires from <= lo <= hi <= |text|
    ensures text[from..lo] + text[lo..hi] + text[hi..] == text[from..]
  {
  }

  lemma {:induction false} UndoReplace(text: Text, spans: seq<Span>, name: string, replacement: Text, from: nat)
    requires ProperFrom(text, spans, from)
    ensures Undo(Replace(text, spans, replacement, from), Record(text, spans, name, from), replacement, from)
         == text[from..]
    decreases |spans|
  {
    if spans == [] {
    } else {
      var lo, hi := spans[0].lo, spans[0].hi;
      hide Undo;
      var rest, more := Replace(text, spans[1..], replacement, hi), Record(text, spans[1..], name, hi);
      UndoStep(text[from..lo], Match(name, text[lo..hi], lo, hi), rest, more, replacement, from);
      UndoReplace(text, spans[1..], name, replacement, hi);
      Pieces(text, from, lo, hi);
    }
  }

  /** The stretches of text between the spans. */
  function Gaps(text: Text, spans: seq<Span>, from: nat): seq<Text>
    requires ProperFrom(text, spans, from)
  {
    if spans == [] then [text[from..]]
    else [text[from..spans[0].lo]] + Gaps(text, spans[1..], spans[0].hi)
  }

  function Join(gaps: seq<Text>, between: seq<Text>): Text
    requires |gaps| == |between| + 1
  {
    if between == [] then gaps[0] else gaps[0] + between[0] + Join(gaps[1..], between[1..])
  }

  function Values(record: seq<Match>): seq<Text> {
    seq(|record|, i requires 0 <= i < |record| => record[i].value)
  }

  lemma JoinStep(gap: Text, gaps: seq<Text>, value: Text, between: seq<Text>)
    requires |gaps| == |between| + 1
    ensures Join([gap] + gaps, [value] + between) == gap + value + Join(gaps, between)
  {
    assert ([gap] + gaps)[1..] == gaps && ([value] + between)[1..] == between;
  }

  /** Text outside the spans is untouched: the original and the masked text are
      the same stretches, joined by the recorded values and by placeholders. */
  lemma {:induction false} OutsideUntouched(text: Text, spans: seq<Span>, name: string, replacement: Text, from: nat)
    requires ProperFrom(text, spans, from)
    ensures |Gaps(text, spans, from)| == |spans| + 1 && |Record(text, spans, name, from)| == |spans|
    ensures Join(Gaps(text, spans, from), Values(Record(text, spans, name, from))) == text[from..]
    ensures Join(Gaps(text, spans, from), seq(|spans|, _ => replacement)) == Replace(text, spans, replacement, from)
    decreases |spans|
  {
    if spans == [] {
    } else {
      var lo, hi := spans[0].lo, spans[0].hi;
      OutsideUntouched(text, spans[1..], name, replacement, hi);
      hide Join;
      var gaps, record := Gaps(text, spans[1..], hi), Record(text, spans[1..], name, hi);
      JoinStep(text[from..lo], gaps, text[lo..hi], Values(record));
      JoinStep(text[from..lo], gaps, replacement, seq(|spans| - 1, _ => replacement));
      assert Values(Record(text, spans, name, from)) == [text[lo..hi]] + Values(record);
      assert seq(|spans|, _ => replacement) == [replacement] + seq(|spans| - 1, _ => replacement);
      Pieces(text, from, lo, hi);
    }
  }

  // ---- All patterns --------------------------------------------------------

  datatype Result = Result(masked: Text, detected: seq<Match>)

  ghost predicate ValidPatterns(patterns: seq<Pattern>) {
    && (forall i :: 0 <= i < |patterns| ==> Finds(patterns[i]))
    && (forall i, j :: 0 <= i < j < |patterns| ==> patterns[i].name != patterns[j].name)
  }

  /** The patterns applied one after the other. */
  function Masked(patterns: seq<Pattern>, text: Text): Result
    requires ValidPatterns(patterns)
  {
    if patterns == [] then Result(text, [])
    else
      var p := patterns[|patterns| - 1];
      var before := Masked(patterns[..|patterns| - 1], text);
      var spans := p.find(before.masked);
      assert Finds(p);
      Result(Replace(before.masked, spans, p.replacement, 0),
             before.detected + Record(before.masked, spans, p.name, 0))
  }

  /** Number of entries before the trailing ones that carry the name. */
  function Split(record: seq<Match>, name: string): (k: nat)
    ensures k <= |record|
  {
    if record == [] || record[|record| - 1].name != name then |record|
    else Split(record[..|record| - 1], name)
  }

  /** Undoes the patterns from the last to the first, from the record alone. */
  function UndoAll(patterns: seq<Pattern>, masked: Text, record: seq<Match>): Text {
    if patterns == [] then masked
    else
      var p := patterns[|patterns| - 1];
      var k := Split(record, p.name);
      UndoAll(patterns[..|patterns| - 1], Undo(masked, record[k..], p.replacement, 0), record[..k])
  }

  lemma {:induction false} RecordNames(text: Text, spans: seq<Span>, name: string, from: nat)
    requires ProperFrom(text, spans, from)
    ensures forall i :: 0 <= i < |Record(text, spans, name, from)| ==> Record(text, spans, name, from)[i].name == name
    decreases |spans|
  {
    if spans == [] {
    } else {
      RecordNames(text, spans[1..], name, spans[0].hi);
    }
  }

  lemma {:induction false} DetectedNames(patterns: seq<Pattern>, text: Text)
    requires ValidPatterns(patterns)
    ensures forall m :: m in Masked(patterns, text).detected ==>
                          exists i :: 0 <= i < |patterns| && patterns[i].name == m.name
    decreases |patterns|
  {
    if patterns == [] {
    } else {
      var front, p := patterns[..|patterns| - 1], patterns[|patterns| - 1];
      DetectedNames(front, text);
      assert Finds(p);
      RecordNames(Masked(front, text).masked, p.find(Masked(front, text).masked), p.name, 0);
      forall m | m in Masked(patterns, text).detected
        ensures exists i :: 0 <= i < |patterns| && patterns[i].name == m.name
      {
        if m in Masked(front, text).detected {
          var i :| 0 <= i < |front| && front[i].name == m.name;
          assert patterns[i].name == m.name;
        } else {
          assert patterns[|patterns| - 1].name == m.name;
        }
      }
    }
  }

  lemma {:induction false} SplitAppended(record: seq<Match>, more: seq<Match>, name: string)
    requires record != [] ==> record[|record| - 1].name != name
    requires forall i :: 0 <= i < |more| ==> more[i].name == name
    ensures Split(record + more, name) == |record|
    decreases |more|
  {
    if more == [] {
      assert record + more == record;
    } else {
      assert (record + more)[..|record + more| - 1] == record + more[..|more| - 1];
      SplitAppended(record, more[..|more| - 1], name);
    }
  }

  /** The record alone rebuilds the original text. */
  lemma {:induction false} MaskingIsReversible(patterns: seq<Pattern>, text: Text)
    requires ValidPatterns(patterns)
    ensures UndoAll(patterns, Masked(patterns, text).masked, Masked(patterns, text).detected) == text
    decreases |patterns|
  {
    if patterns == [] {
    } else {
      var front, p := patterns[..|patterns| - 1], patterns[|patterns| - 1];
      var before := Masked(front, text);
      assert Finds(p);
      var spans := p.find(before.masked);
      var more := Record(before.masked, spans, p.name, 0);
      RecordNames(before.masked, spans, p.name, 0);
      DetectedNames(front, text);
      if before.detected != [] {
        var m := before.detected[|before.detected| - 1];
        assert m in before.detected;
        var i :| 0 <= i < |front| && front[i].name == m.name;
        assert patterns[i].name != p.name;
      }
      SplitAppended(before.detected, more, p.name);
      assert (before.detected + more)[|before.detected|..] == more;
      assert (before.detected + more)[..|before.detected|] == before.detected;
      UndoReplace(before.masked, spans, p.name, p.replacement, 0);
      MaskingIsReversible(front, text);
    }
  }

  // ---- From text to text ---------------------------------------------------

  ghost function FoundValues(text: Text, spans: seq<Span>): seq<Text>
    requires forall i :: 0 <= i < |spans| ==> spans[i].lo <= spans[i].hi <= |text|
  {
    seq(|spans|, i requires 0 <= i < |spans| => text[spans[i].lo..spans[i].hi])
  }

  ghost predicate InText(text: Text, spans: seq<Span>) {
    forall i :: 0 <= i < |spans| ==> spans[i].lo < spans[i].hi <= |text|
  }

  /** The pattern turns text into next: both are the stretches of text between what the
      pattern finds in it, joined by what it finds and by its placeholder. */
  ghost predicate Turns(p: Pattern, text: Text, next: Text) {
    var spans := p.find(text);
    && ProperFrom(text, spans, 0) && InText(text, spans)
    && |Gaps(text, spans, 0)| == |spans| + 1
    && Join(Gaps(text, spans, 0), FoundValues(text, spans)) == text
    && Join(Gaps(text, spans, 0), seq(|spans|, _ => p.replacement)) == next
  }

  /** The texts from the original to the masked one, one pattern after the other. */
  ghost predicate Stages(patterns: seq<Pattern>, texts: seq<Text>) {
    && |texts| == |patterns| + 1
    && forall i :: 0 <= i < |patterns| ==> Turns(patterns[i], texts[i], texts[i + 1])
  }

  /** What the pattern finds in the text, with names and positions. */
  ghost function FoundIn(p: Pattern, text: Text): seq<Match> {
    var spans := p.find(text);
    seq(|spans|, i requires 0 <= i < |spans| =>
      Match(p.name, if spans[i].lo <= spans[i].hi <= |text| then text[spans[i].lo..spans[i].hi] else [],
            spans[i].lo, spans[i].hi))
  }

  /** What the first n patterns find, each in its own text, in order. */
  ghost function FoundUpTo(patterns: seq<Pattern>, texts: seq<Text>, n: nat): seq<Match>
    requires n <= |patterns| && n <= |texts|
  {
    if n == 0 then [] else FoundUpTo(patterns, texts, n - 1) + FoundIn(patterns[n - 1], texts[n - 1])
  }

  lemma {:induction false} RecordSoFar(text: Text, spans: seq<Span>, name: string, from: nat)
    requires ProperFrom(text, spans, from)
    ensures |Record(text, spans, name, from)| == |spans|
    ensures forall i :: 0 <= i < |spans| ==>
                          spans[i].lo < spans[i].hi <= |text|
                          && Record(text, spans, name, from)[i]
                          == Match(name, text[spans[i].lo..spans[i].hi], spans[i].lo, spans[i].hi)
    decreases |spans|
  {
    if spans == [] {
    } else {
      RecordSoFar(text, spans[1..], name, spans[0].hi);
    }
  }

  lemma OneStage(p: Pattern, text: Text)
    requires ProperFrom(text, p.find(text), 0)
    ensures Turns(p, text, Replace(text, p.find(text), p.replacement, 0))
    ensures FoundIn(p, text) == Record(text, p.find(text), p.name, 0)
  {
    var spans := p.find(text);
    RecordSoFar(text, spans, p.name, 0);
    OutsideUntouched(text, spans, p.name, p.replacement, 0);
    assert FoundValues(text, spans) == Values(Record(text, spans, p.name, 0));
    assert text[0..] == text;
  }

  lemma {:induction false} FoundInPrefix(
      patterns: seq<Pattern>, texts: seq<Text>, more: seq<Pattern>, after: seq<Text>, n: nat)
    requires n <= |patterns| && n <= |texts|
    ensures FoundUpTo(patterns + more, texts + after, n) == FoundUpTo(patterns, texts, n)
    decreases n
  {
    if n == 0 {
    } else {
      FoundInPrefix(patterns, texts, more, after, n - 1);
    }
  }

  lemma OneMoreStage(patterns: seq<Pattern>, texts: seq<Text>, p: Pattern, next: Text)
    requires Stages(patterns, texts) && Turns(p, texts[|patterns|], next)
    ensures Stages(patterns + [p], texts + [next])
    ensures FoundUpTo(patterns + [p], texts + [next], |patterns| + 1)
         == FoundUpTo(patterns, texts, |patterns|) + FoundIn(p, texts[|patterns|])
  {
    hide Turns, FoundIn;
    FoundInPrefix(patterns, texts, [p], [next], |patterns|);
    var all, more := patterns + [p], texts + [next];
    forall i | 0 <= i < |all|
      ensures Turns(all[i], more[i], more[i + 1])
    {
      if i < |patterns| {
        assert Turns(patterns[i], texts[i], texts[i + 1]);
      }
    }
  }

  /** The masked text is reached from the original by every pattern in turn, each working
      on the text that the one before left, and the record is what each found there. */
  lemma {:induction false} MaskedInStages(patterns: seq<Pattern>, text: Text) returns (texts: seq<Text>)
    requires ValidPatterns(patterns)
    ensures Stages(patterns, texts) && |texts| == |patterns| + 1
    ensures texts[0] == text && texts[|patterns|] == Masked(patterns, text).masked
    ensures Masked(patterns, text).detected == FoundUpTo(patterns, texts, |patterns|)
    decreases |patterns|
  {
    if patterns == [] {
      texts := [text];
    } else {
      var front, p := patterns[..|patterns| - 1], patterns[|patterns| - 1];
      var earlier := MaskedInStages(front, text);
      var before := Masked(front, text);
      assert Finds(p);
      OneStage(p, before.masked);
      hide Stages, Turns, FoundIn;
      var next := Replace(before.masked, p.find(before.masked), p.replacement, 0);
      texts := earlier + [next];
      OneMoreStage(front, earlier, p, next);
      assert patterns == front + [p];
    }
  }

  // ---- The masker ----------------------------------------------------------

  datatype MaskResult = MaskResult(original: Text, masked: Text, detectedPII: seq<Match>, wasMasked: bool)

  method Mask(patterns: seq<Pattern>, text: Text) returns (result: MaskResult)
    requires ValidPatterns(patterns)
    ensures result.original == text
    ensures Result(result.masked, result.detectedPII) == Masked(patterns, text)
    ensures result.wasMasked <==> result.detectedPII != []
    ensures UndoAll(patterns, result.masked, result.detectedPII) == text
    ensures exists texts :: Stages(patterns, texts) && |texts| == |patterns| + 1
                            && texts[0] == text && texts[|patterns|] == result.masked
                            && result.detectedPII == FoundUpTo(patterns, texts, |patterns|)
  {
    var masked, detected := text, [];
    for n := 0 to |patterns|
      invariant Result(masked, detected) == Masked(patterns[..n], text)
    {
      var p := patterns[n];
      var locs := p.find(masked);
      assert Finds(p);
      assert patterns[..n + 1][..n] == patterns[..n];
      if |locs| == 0 {
        assert Replace(masked, locs, p.replacement, 0) == masked;
        continue;
      }
      ghost var before := detected;
      RecordSoFar(masked, locs, p.name, 0);
      for i := 0 to |locs|
        invariant detected == before + Record(masked, locs, p.name, 0)[..i]
      {
        detected := detected + [Match(p.name, masked[locs[i].lo..locs[i].hi], locs[i].lo, locs[i].hi)];
      }
      masked := Replace(masked, locs, p.replacement, 0);
    }
    assert patterns[..|patterns|] == patterns;
    MaskingIsReversible(patterns, text);
    ghost var texts := MaskedInStages(patterns, text);
    hide Stages, FoundUpTo, UndoAll;
    result := MaskResult(text, masked, detected, |detected| > 0);
  }
}
