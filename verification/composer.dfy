/** `insertar_frases`: splices the user's phrases into the base description.
    The working state is the dictionary `partes` (a start text, the body and
    an end text) together with the list of sentences `oraciones`, split once
    from the base description. */
module Composer {
  import opened Text

  /** How the loop reads a position choice: the three labels it tests for,
      and anything else, which it treats as "automatic". */
  datatype Position = Start | Middle | End | Automatic

  function PositionOf(choice: string): Position {
    if choice == "inicio" then Start
    else if choice == "medio" then Middle
    else if choice == "cierre" then End
    else Automatic
  }

  /** The sentence delimiter used both to split and to rejoin the body. */
  const SENTENCE_BREAK: string := ". "

  /** One entry of `frases_posiciones`: a phrase and its position choice. */
  type Placement = (string, string)

  ghost predicate DistinctPhrases(ps: seq<Placement>) {
    forall i, j :: 0 <= i < j < |ps| ==> ps[i].0 != ps[j].0
  }

  /** `frases_posiciones` is a dictionary keyed by phrase and read in insertion
      order: a sequence of placements whose phrases are distinct. */
  type PhraseMap = ps: seq<Placement> | DistinctPhrases(ps) witness []

  /** The entries of `partes` ("inicio", "medio", "cierre") and `oraciones`. */
  datatype Parts = Parts(prefix: string, body: string, suffix: string, sentences: seq<string>)

  /** The state before the loop. */
  function Initial(base: string): Parts {
    Parts("", base, "", Split(base, SENTENCE_BREAK))
  }

  /** One iteration of the loop, branch for branch. */
  function Step(p: Parts, phrase: string, position: Position): Parts {
    if position == Start then
      Parts(phrase + " ", p.body, p.suffix, p.sentences)
    else if position == Middle && |p.sentences| > 1 then
      var sentences := InsertAt(p.sentences, |p.sentences| / 2, phrase);
      Parts(p.prefix, Join(sentences, SENTENCE_BREAK), p.suffix, sentences)
    else if position == End then
      Parts(p.prefix, p.body, " " + phrase, p.sentences)
    else
      Parts(p.prefix, p.body + " " + phrase, p.suffix, p.sentences)
  }

  /** The state after the loop has gone over `ps` in order. */
  function Process(p: Parts, ps: seq<Placement>): Parts
    decreases |ps|
  {
    if ps == [] then p
    else
      var last := ps[|ps| - 1];
      Step(Process(p, ps[..|ps| - 1]), last.0, PositionOf(last.1))
  }

  /** Appends a period unless the text already ends with one. */
  function WithPeriod(d: string): (r: string)
    ensures EndsWith(r, ".")
    ensures d <= r && |r| <= |d| + 1
    ensures EndsWith(d, ".") ==> r == d
  {
    if EndsWith(d, ".") then d else d + "."
  }

  /** The result once the loop is done: the stripped concatenation, ending
      with a period. */
  function Finish(p: Parts): (r: string)
    ensures EndsWith(r, ".")
  {
    WithPeriod(Strip(p.prefix + p.body + p.suffix))
  }

  /** What `insertar_frases(base, ps)` returns. */
  function Description(base: string, ps: seq<Placement>): (r: string)
    ensures EndsWith(r, ".")
  {
    Finish(Process(Initial(base), ps))
  }

  /** `insertar_frases` */
  method InsertPhrases(base: string, placements: PhraseMap) returns (description: string)
    ensures description == Description(base, placements)
    ensures EndsWith(description, ".")
  {
    var prefix, body, suffix := "", base, "";
    var sentences := Split(body, SENTENCE_BREAK);
    for i := 0 to |placements|
      invariant Parts(prefix, body, suffix, sentences) == Process(Initial(base), placements[..i])
    {
      var (phrase, choice) := placements[i];
      var position := PositionOf(choice);
      if position == Start {
        prefix := phrase + " ";
      } else if position == Middle && |sentences| > 1 {
        sentences := InsertAt(sentences, |sentences| / 2, phrase);
        body := Join(sentences, SENTENCE_BREAK);
      } else if position == End {
        suffix := " " + phrase;
      } else {
        body := body + " " + phrase;
      }
      assert placements[..i + 1][..i] == placements[..i];
    }
    assert placements[..|placements|] == placements;
    description := Strip(prefix + body + suffix);
    if !EndsWith(description, ".") {
      description := description + ".";
    }
  }

  // ---------------------------------------------------------------------
  // Auxiliary views of a placement sequence
  // ---------------------------------------------------------------------

  /** The phrases placed at `position`, in processing order. */
  function PhrasesAt(ps: seq<Placement>, position: Position): (phrases: seq<string>)
    ensures |phrases| <= |ps|
    ensures forall f :: f in phrases <==> (exists k :: 0 <= k < |ps| && ps[k].0 == f && PositionOf(ps[k].1) == position)
    decreases |ps|
  {
    if ps == [] then []
    else
      var init := ps[..|ps| - 1];
      var rest := PhrasesAt(init, position);
      assert forall k :: 0 <= k < |ps| - 1 ==> init[k] == ps[k];
      if PositionOf(ps[|ps| - 1].1) == position then rest + [ps[|ps| - 1].0] else rest
  }

  /** Whether an entry at `position` appends its phrase to the body; a Middle
      entry does so only when the sentence list has a single element. */
  predicate AppendsToBody(position: Position, middleAppends: bool) {
    position == Automatic || (position == Middle && middleAppends)
  }

  /** The text the appending entries of `ps` add to the body, one " phrase"
      per entry, in order. */
  function Appended(ps: seq<Placement>, middleAppends: bool): string
    decreases |ps|
  {
    if ps == [] then ""
    else
      var last := ps[|ps| - 1];
      Appended(ps[..|ps| - 1], middleAppends)
        + (if AppendsToBody(PositionOf(last.1), middleAppends) then " " + last.0 else "")
  }

  /** The text the automatic entries after the last Middle entry add to the
      body, one " phrase" per entry, in order. */
  function AppendedSinceMiddle(ps: seq<Placement>): string
    decreases |ps|
  {
    if ps == [] then ""
    else
      var last := ps[|ps| - 1];
      match PositionOf(last.1)
      case Middle => ""
      case Automatic => AppendedSinceMiddle(ps[..|ps| - 1]) + " " + last.0
      case _ => AppendedSinceMiddle(ps[..|ps| - 1])
  }

  // ---------------------------------------------------------------------
  // Properties of the loop
  // ---------------------------------------------------------------------

  /** One Middle step on a list of several sentences puts the phrase at the
      midpoint of the list as it stands, keeps every other sentence in order,
      and makes the body exactly the rejoined list. */
  lemma StepMiddle(p: Parts, phrase: string)
    requires |p.sentences| > 1
    ensures var q := Step(p, phrase, Middle);
      var mid := |p.sentences| / 2;
      && |q.sentences| == |p.sentences| + 1
      && q.sentences[mid] == phrase
      && q.sentences[..mid] == p.sentences[..mid]
      && q.sentences[mid + 1..] == p.sentences[mid..]
      && q.body == Join(q.sentences, SENTENCE_BREAK)
      && q.prefix == p.prefix && q.suffix == p.suffix
  {
  }

  /** An automatic entry, or a Middle entry when there is at most one
      sentence, appends " phrase" to the body and changes nothing else. */
  lemma StepAppends(p: Parts, phrase: string, position: Position)
    requires AppendsToBody(position, |p.sentences| <= 1)
    ensures Step(p, phrase, position) == Parts(p.prefix, p.body + " " + phrase, p.suffix, p.sentences)
  {
  }

  /** Only the last Start entry decides the prefix: it is that phrase
      followed by a space. */
  lemma {:induction false} LastStartWins(p: Parts, ps: seq<Placement>, j: nat)
    requires j < |ps| && PositionOf(ps[j].1) == Start
    requires forall k :: j < k < |ps| ==> PositionOf(ps[k].1) != Start
    ensures Process(p, ps).prefix == ps[j].0 + " "
    decreases |ps|
  {
    if j < |ps| - 1 {
      var init := ps[..|ps| - 1];
      LastStartWins(p, init, j);
    }
  }

  /** Without a Start entry the prefix is never touched. */
  lemma {:induction false} NoStartKeepsPrefix(p: Parts, ps: seq<Placement>)
    requires forall k :: 0 <= k < |ps| ==> PositionOf(ps[k].1) != Start
    ensures Process(p, ps).prefix == p.prefix
    decreases |ps|
  {
    if ps != [] {
      NoStartKeepsPrefix(p, ps[..|ps| - 1]);
    }
  }

  /** Only the last End entry decides the suffix: it is a space followed by
      that phrase. */
  lemma {:induction false} LastEndWins(p: Parts, ps: seq<Placement>, j: nat)
    requires j < |ps| && PositionOf(ps[j].1) == End
    requires forall k :: j < k < |ps| ==> PositionOf(ps[k].1) != End
    ensures Process(p, ps).suffix == " " + ps[j].0
    decreases |ps|
  {
    if j < |ps| - 1 {
      var init := ps[..|ps| - 1];
      LastEndWins(p, init, j);
    }
  }

  /** Without an End entry the suffix is never touched. */
  lemma {:induction false} NoEndKeepsSuffix(p: Parts, ps: seq<Placement>)
    requires forall k :: 0 <= k < |ps| ==> PositionOf(ps[k].1) != End
    ensures Process(p, ps).suffix == p.suffix
    decreases |ps|
  {
    if ps != [] {
      NoEndKeepsSuffix(p, ps[..|ps| - 1]);
    }
  }

  /** With several sentences, each Middle entry adds its phrase to the
      sentence list, which grows by one per entry and loses nothing. */
  lemma {:induction false} SentencesGrow(p: Parts, ps: seq<Placement>)
    requires |p.sentences| > 1
    ensures var q := Process(p, ps);
      && |q.sentences| == |p.sentences| + |PhrasesAt(ps, Middle)|
      && multiset(q.sentences) == multiset(p.sentences) + multiset(PhrasesAt(ps, Middle))
    decreases |ps|
  {
    if ps != [] {
      var init := ps[..|ps| - 1];
      SentencesGrow(p, init);
      var q0 := Process(p, init);
      var last := ps[|ps| - 1];
      var q := Process(p, ps);
      assert q == Step(q0, last.0, PositionOf(last.1));
      if PositionOf(last.1) == Middle {
        StepMiddle(q0, last.0);
        assert PhrasesAt(ps, Middle) == PhrasesAt(init, Middle) + [last.0];
        assert q.sentences == InsertAt(q0.sentences, |q0.sentences| / 2, last.0);
      } else {
        assert PhrasesAt(ps, Middle) == PhrasesAt(init, Middle);
        assert q.sentences == q0.sentences;
      }
    }
  }

  /** With at most one sentence the list never changes, and every entry that
      is neither Start nor End, Middle ones included, is appended to the body. */
  lemma {:induction false} SingleSentenceAppends(p: Parts, ps: seq<Placement>)
    requires |p.sentences| <= 1
    ensures Process(p, ps).sentences == p.sentences
    ensures Process(p, ps).body == p.body + Appended(ps, true)
    decreases |ps|
  {
    if ps != [] {
      var init := ps[..|ps| - 1];
      var last := ps[|ps| - 1];
      SingleSentenceAppends(p, init);
      var q0 := Process(p, init);
      if AppendsToBody(PositionOf(last.1), true) {
        StepAppends(q0, last.0, PositionOf(last.1));
      }
    }
  }

  /** With several sentences, the body is the one the last Middle entry
      rebuilt from the sentence list (the initial body if there was none),
      followed only by the phrases appended after it: earlier appends are
      lost. */
  lemma {:induction false} BodyAfterLastMiddle(p: Parts, ps: seq<Placement>)
    requires |p.sentences| > 1
    ensures var q := Process(p, ps);
      && |q.sentences| > 1
      && (PhrasesAt(ps, Middle) == [] ==>
            q.sentences == p.sentences && q.body == p.body + AppendedSinceMiddle(ps))
      && (PhrasesAt(ps, Middle) != [] ==>
            q.body == Join(q.sentences, SENTENCE_BREAK) + AppendedSinceMiddle(ps))
    decreases |ps|
  {
    if ps != [] {
      BodyAfterLastMiddle(p, ps[..|ps| - 1]);
    }
  }

  // ---------------------------------------------------------------------
  // Properties of the whole operation
  // ---------------------------------------------------------------------

  /** With no placements the result is the stripped base description, with a
      period appended when it lacks one. */
  lemma NoPlacements(base: string)
    ensures Description(base, []) ==
      if EndsWith(Strip(base), ".") then Strip(base) else Strip(base) + "."
  {
    assert "" + base + "" == base;
  }

  /** The body of the result. A base without ". " is a single sentence: every
      Middle entry then behaves as automatic and all appends survive. With
      several sentences the body is the rejoined sentence list, grown by one
      phrase per Middle entry, followed by the appends after the last Middle
      entry only. */
  lemma DescriptionBody(base: string, ps: seq<Placement>)
    ensures var q := Process(Initial(base), ps);
      && (!Contains(base, SENTENCE_BREAK) ==>
            q.sentences == [base] && q.body == base + Appended(ps, true))
      && (Contains(base, SENTENCE_BREAK) ==>
            && |q.sentences| == |Split(base, SENTENCE_BREAK)| + |PhrasesAt(ps, Middle)|
            && q.body == Join(q.sentences, SENTENCE_BREAK) + AppendedSinceMiddle(ps))
  {
    var p := Initial(base);
    SplitManyIffContains(base, SENTENCE_BREAK);
    JoinSplit(base, SENTENCE_BREAK);
    if Contains(base, SENTENCE_BREAK) {
      SentencesGrow(p, ps);
      BodyAfterLastMiddle(p, ps);
    } else {
      SingleSentenceAppends(p, ps);
    }
  }

  /** The last Start phrase opens the result, provided it neither begins nor
      ends with whitespace. */
  lemma StartPhraseLeads(base: string, ps: seq<Placement>, j: nat)
    requires j < |ps| && PositionOf(ps[j].1) == Start
    requires forall k :: j < k < |ps| ==> PositionOf(ps[k].1) != Start
    requires ps[j].0 != [] && !IsSpace(ps[j].0[0]) && !IsSpace(ps[j].0[|ps[j].0| - 1])
    ensures ps[j].0 <= Description(base, ps)
  {
    LastStartWins(Initial(base), ps, j);
    FinishKeepsStart(Process(Initial(base), ps), ps[j].0);
  }

  /** A start text made of a phrase with no surrounding whitespace and a
      space leaves that phrase at the front of the result. */
  lemma FinishKeepsStart(q: Parts, f: string)
    requires q.prefix == f + " "
    requires f != [] && !IsSpace(f[0]) && !IsSpace(f[|f| - 1])
    ensures f <= Finish(q)
  {
    assert q.prefix + q.body + q.suffix == f + (" " + q.body + q.suffix);
    StripKeepsPrefix(f, " " + q.body + q.suffix);
  }

  /** A text that ends with `f` still ends with `f` once the period is added,
      followed by that period unless `f` already ends with one. */
  lemma WithPeriodKeepsEnding(d: string, f: string)
    requires f != [] && EndsWith(d, f)
    ensures if EndsWith(f, ".") then EndsWith(WithPeriod(d), f) else EndsWith(WithPeriod(d), f + ".")
  {
    assert d[|d| - 1] == f[|f| - 1];
    if !EndsWith(f, ".") {
      assert WithPeriod(d)[|d| + 1 - |f| - 1..] == d[|d| - |f|..] + ".";
    }
  }

  /** The last End phrase closes the result, just before the final period
      (or as the final text when the phrase itself ends with a period),
      provided it neither begins nor ends with whitespace. */
  lemma EndPhraseCloses(base: string, ps: seq<Placement>, j: nat)
    requires j < |ps| && PositionOf(ps[j].1) == End
    requires forall k :: j < k < |ps| ==> PositionOf(ps[k].1) != End
    requires ps[j].0 != [] && !IsSpace(ps[j].0[0]) && !IsSpace(ps[j].0[|ps[j].0| - 1])
    ensures var r := Description(base, ps);
      if EndsWith(ps[j].0, ".") then EndsWith(r, ps[j].0) else EndsWith(r, ps[j].0 + ".")
  {
    var q := Process(Initial(base), ps);
    var f := ps[j].0;
    LastEndWins(Initial(base), ps, j);
    assert q.prefix + q.body + q.suffix == (q.prefix + q.body + " ") + f;
    StripKeepsSuffix(q.prefix + q.body + " ", f);
    WithPeriodKeepsEnding(Strip(q.prefix + q.body + q.suffix), f);
  }

  /** When the joined parts have no surrounding whitespace, the result is
      them with the period rule applied. */
  lemma FinishTrimmed(p: Parts)
    requires var d := p.prefix + p.body + p.suffix; d != [] && !IsSpace(d[0]) && !IsSpace(d[|d| - 1])
    ensures Finish(p) == WithPeriod(p.prefix + p.body + p.suffix)
  {
    StripUnchanged(p.prefix + p.body + p.suffix);
  }

  // ---------------------------------------------------------------------
  // Concrete cases
  // ---------------------------------------------------------------------

  /** An End phrase lands after both original sentences, before the period. */
  lemma EndPhraseExample()
    ensures Description("A. B", [("C!", "cierre")]) == "A. B C!."
  {
    var ps: seq<Placement> := [("C!", "cierre")];
    assert ps[..0] == [];
    var q := Process(Initial("A. B"), ps);
    assert q.prefix + q.body + q.suffix == "A. B C!";
    FinishTrimmed(q);
  }

  /** Of two Start phrases only the later one is kept. */
  lemma LaterStartOverwrites()
    ensures Description("B.", [("x", "inicio"), ("Y", "inicio")]) == "Y B."
  {
    var p := Initial("B.");
    var ps: seq<Placement> := [("x", "inicio"), ("Y", "inicio")];
    assert ps[..1] == [("x", "inicio")];
    var first: seq<Placement> := [("x", "inicio")];
    assert first[..0] == [];
    var q := Process(p, ps);
    assert q == Parts("Y ", "B.", "", p.sentences);
    assert q.prefix + q.body + q.suffix == "Y B.";
    FinishTrimmed(q);
  }

  /** A Middle phrase on a single-sentence base is appended at the end. */
  lemma MiddleOnSingleSentence()
    ensures Description("Ok", [("ya", "medio")]) == "Ok ya."
  {
    MiddleAppendsOnOk();
    FinishTrimmed(Parts("", "Ok ya", "", ["Ok"]));
    assert "" + "Ok ya" + "" == "Ok ya";
  }

  /** The loop state after the single Middle entry "ya" on "Ok". */
  lemma MiddleAppendsOnOk()
    ensures Process(Initial("Ok"), [("ya", "medio")]) == Parts("", "Ok ya", "", ["Ok"])
  {
    SplitNoSep("Ok", SENTENCE_BREAK);
    var ps: seq<Placement> := [("ya", "medio")];
    assert ps[..0] == [];
  }

  /** "A. B" is two sentences. */
  lemma SplitTwoSentences()
    ensures Split("A. B", SENTENCE_BREAK) == ["A", "B"]
  {
    var s := "A. B";
    assert s[..2][0] == 'A';
    assert s[1..] == ". B";
    assert Split(". B", SENTENCE_BREAK) == ["", "B"] by {
      assert ". B"[2..] == "B";
      assert ". B"[..2] == SENTENCE_BREAK;
    }
    assert ['A'] + "" == "A";
  }

  /** The loop state after an automatic entry followed by a Middle entry: the
      Middle entry rebuilds the body from the sentence list. */
  lemma AppendThenMiddle()
    ensures Process(Initial("A. B"), [("x", "auto"), ("y", "medio")])
         == Parts("", "A. y. B", "", ["A", "y", "B"])
  {
    var ps: seq<Placement> := [("x", "auto"), ("y", "medio")];
    assert ps[..1] == [("x", "auto")];
    AppendOnTwoSentences();
    MiddleRebuild(Process(Initial("A. B"), [("x", "auto")]));
  }

  /** An automatic entry on "A. B" appends to the body; the sentence list
      stays the two sentences. */
  lemma AppendOnTwoSentences()
    ensures Process(Initial("A. B"), [("x", "auto")]).sentences == ["A", "B"]
  {
    SplitTwoSentences();
    var first: seq<Placement> := [("x", "auto")];
    assert first[..0] == [];
  }

  /** A Middle entry "y" on the sentences "A", "B" rebuilds the body as
      "A. y. B", whatever was appended before. */
  lemma MiddleRebuild(q: Parts)
    requires q.prefix == "" && q.suffix == "" && q.sentences == ["A", "B"]
    ensures Step(q, "y", Middle) == Parts("", "A. y. B", "", ["A", "y", "B"])
  {
    InsertAndRejoin();
  }

  /** "y" inserted at the midpoint of "A", "B" and the list rejoined. */
  lemma InsertAndRejoin()
    ensures InsertAt(["A", "B"], 1, "y") == ["A", "y", "B"]
    ensures Join(["A", "y", "B"], SENTENCE_BREAK) == "A. y. B"
  {
    var ayb := ["A", "y", "B"];
    assert ayb[1..] == ["y", "B"];
    assert ["y", "B"][1..] == ["B"];
  }

  /** A phrase does not always reach the result: an automatic append is
      discarded when a later Middle entry rebuilds the body. */
  lemma AppendLostToLaterMiddle()
    ensures Description("A. B", [("x", "auto"), ("y", "medio")]) == "A. y. B."
    ensures 'x' !in Description("A. B", [("x", "auto"), ("y", "medio")])
  {
    AppendThenMiddle();
    RebuiltFinish(Process(Initial("A. B"), [("x", "auto"), ("y", "medio")]));
  }

  /** Finishing the rebuilt parts adds the period and leaves "x" out. */
  lemma RebuiltFinish(q: Parts)
    requires q == Parts("", "A. y. B", "", ["A", "y", "B"])
    ensures Finish(q) == "A. y. B." && 'x' !in Finish(q)
  {
    assert q.prefix + q.body + q.suffix == "A. y. B";
    FinishTrimmed(q);
  }
}
