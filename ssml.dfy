/**
  The SSML document the text stage builds: `<speak>`, then every sentence with its
  surrounding white space stripped and followed by a one-second break, then `</speak>`.
 */
module Ssml {
  import opened Wrappers
  import opened Text
  import opened Sentences

  const SpeakOpen := "<speak>"
  const SpeakClose := "</speak>"
  const Break := "<break time=\"1s\"/>"

  /** What the loop has appended after `<speak>` once it has seen the sentences `ps`. */
  function Body(ps: seq<string>): string
  {
    if ps == [] then [] else Body(ps[..|ps| - 1]) + (Strip(ps[|ps| - 1]) + Break)
  }

  /** The whole document for the sentences `ps`. */
  function SsmlDocument(ps: seq<string>): string
  {
    SpeakOpen + Body(ps) + SpeakClose
  }

  /** Whatever the text, the document opens with `<speak>` and closes with `</speak>`. */
  lemma DocumentMarkers(text: string)
    ensures |TextToSsml(text)| >= |SpeakOpen| + |SpeakClose|
    ensures TextToSsml(text)[..|SpeakOpen|] == SpeakOpen
    ensures EndsWith(TextToSsml(text), SpeakClose)
  {
    var doc := TextToSsml(text);
    assert doc == SpeakOpen + (Body(Split(text)) + SpeakClose);
    assert doc == (SpeakOpen + Body(Split(text))) + SpeakClose;
  }

  /** The SSML for a text: the document over the sentences `re.split` finds. */
  function TextToSsml(text: string): string
  {
    SsmlDocument(Split(text))
  }

  /** The loop of the text stage: start with `<speak>`, append each stripped sentence and a break, close with `</speak>`. */
  method BuildSsml(sentences: seq<string>) returns (doc: string)
    ensures doc == SsmlDocument(sentences)
  {
    doc := SpeakOpen;
    for i := 0 to |sentences|
      invariant doc == SpeakOpen + Body(sentences[..i])
    {
      var piece := Strip(sentences[i]) + Break;
      assert sentences[..i + 1][..i] == sentences[..i];
      assert Body(sentences[..i + 1]) == Body(sentences[..i]) + piece;
      doc := doc + piece;
    }
    assert sentences[..|sentences|] == sentences;
    doc := doc + SpeakClose;
  }

  /** The conversion the text stage performs: split into sentences, then build the document. */
  method ConvertText(text: string) returns (ssml: string)
    ensures ssml == TextToSsml(text)
  {
    var sentences := Split(text);
    ssml := BuildSsml(sentences);
  }

  /** The body read from the front: the first sentence comes first. */
  lemma {:induction false} BodyCons(ps: seq<string>)
    requires ps != []
    ensures Body(ps) == (Strip(ps[0]) + Break) + Body(ps[1..])
    decreases |ps|
  {
    if |ps| > 1 {
      var init := ps[..|ps| - 1];
      BodyCons(init);
      assert init[0] == ps[0] && init[1..] == ps[1..][..|ps[1..]| - 1];
    } else {
      assert ps[..0] == [] && ps[1..] == [];
    }
  }

  /** The index of the first `<` in `s`, or `|s|`. */
  function IndexOfTag(s: string): (i: nat)
    ensures i <= |s| && '<' !in s[..i]
    ensures i < |s| ==> s[i] == '<'
  {
    if s == [] then 0
    else if s[0] == '<' then 0
    else
      var i := 1 + IndexOfTag(s[1..]);
      assert s[..i] == [s[0]] + s[1..][..i - 1];
      i
  }

  /** Reads a body back: the text before each break, as long as the body is text-then-break all the way through. */
  function Unbreak(s: string): Option<seq<string>>
    decreases |s|
  {
    if s == [] then Some([])
    else
      var i := IndexOfTag(s);
      if OccursAt(s, Break, i) then
        match Unbreak(s[i + |Break|..])
        case None => None
        case Some(rest) => Some([s[..i]] + rest)
      else None
  }

  /** Reads a document back into its sentences, or None when it is not `<speak>`, body, `</speak>`. */
  function ParseSsml(doc: string): Option<seq<string>>
  {
    if |doc| >= |SpeakOpen| + |SpeakClose| && doc[..|SpeakOpen|] == SpeakOpen
       && doc[|doc| - |SpeakClose|..] == SpeakClose
    then Unbreak(doc[|SpeakOpen|..|doc| - |SpeakClose|])
    else None
  }

  /** The stripped sentences, in order. */
  function StripAll(ps: seq<string>): (r: seq<string>)
    ensures |r| == |ps|
    ensures forall k :: 0 <= k < |ps| ==> r[k] == Strip(ps[k])
  {
    seq(|ps|, k requires 0 <= k < |ps| => Strip(ps[k]))
  }

  predicate TagFree(ps: seq<string>) {
    forall k :: 0 <= k < |ps| ==> '<' !in ps[k]
  }

  /** A stripped piece of `p` has no character `p` lacks. */
  lemma StripKeepsOut(p: string, c: char)
    requires c !in p
    ensures c !in Strip(p)
  {
    StripSpec(p);
  }

  /** One text-then-break step of `Unbreak`: text without `<` before a break is read off whole. */
  lemma UnbreakStep(p: string, tail: string)
    requires '<' !in p
    ensures Unbreak(p + Break + tail)
            == if Unbreak(tail).Some? then Some([p] + Unbreak(tail).value) else None
  {
    var s := p + Break + tail;
    assert s[..|p|] == p;
    assert s[|p|] == Break[0];
    IndexOfTagAt(s, |p|);
    assert s[|p|..|p| + |Break|] == Break;
    assert s[|p| + |Break|..] == tail;
  }

  /** Parsing a body gives back the stripped sentences it was built from. */
  lemma {:induction false} UnbreakBody(ps: seq<string>)
    requires TagFree(ps)
    ensures Unbreak(Body(ps)) == Some(StripAll(ps))
    decreases |ps|
  {
    if ps != [] {
      var p, tail := Strip(ps[0]), Body(ps[1..]);
      BodyCons(ps);
      StripKeepsOut(ps[0], '<');
      TagFreeTail(ps);
      UnbreakBody(ps[1..]);
      UnbreakStep(p, tail);
      StripAllCons(ps);
    }
  }

  lemma TagFreeTail(ps: seq<string>)
    requires ps != [] && TagFree(ps)
    ensures '<' !in ps[0] && TagFree(ps[1..])
  {
    assert forall k :: 0 <= k < |ps[1..]| ==> ps[1..][k] == ps[k + 1];
  }

  lemma StripAllCons(ps: seq<string>)
    requires ps != []
    ensures StripAll(ps) == [Strip(ps[0])] + StripAll(ps[1..])
  {
  }

  /** The first `<` is where the text before it has none and `s` has one. */
  lemma IndexOfTagAt(s: string, i: nat)
    requires i < |s| && '<' !in s[..i] && s[i] == '<'
    ensures IndexOfTag(s) == i
  {
  }

  /**
    The document round-trips: for text without `<`, reading the SSML back gives one
    entry per sentence, in input order, each being that sentence stripped.
   */
  lemma ParseSsmlOfDocument(ps: seq<string>)
    requires TagFree(ps)
    ensures ParseSsml(SsmlDocument(ps)) == Some(StripAll(ps))
  {
    var doc := SsmlDocument(ps);
    assert doc[|SpeakOpen|..|doc| - |SpeakClose|] == Body(ps);
    UnbreakBody(ps);
  }

  /** Text before a `<`-led pattern that has no `<` of its own adds no occurrences. */
  lemma {:induction false} CountSkipsTagFree(a: string, b: string, pat: string)
    requires pat != [] && pat[0] == '<' && '<' !in a
    ensures Count(a + b, pat) == Count(b, pat)
    decreases |a|
  {
    if a != [] {
      var s := a + b;
      assert s[0] == a[0] != '<';
      if |s| >= |pat| {
        assert s[..|pat|][0] == s[0];
        assert s[1..] == a[1..] + b;
        CountSkipsTagFree(a[1..], b, pat);
      } else {
        assert |b| < |pat|;
      }
    } else {
      assert a + b == b;
    }
  }

  /** Text without `<`, then a break: one occurrence, and the count goes on after the break. */
  lemma CountStep(p: string, rest: string)
    requires '<' !in p
    ensures Count(p + (Break + rest), Break) == 1 + Count(rest, Break)
  {
    CountSkipsTagFree(p, Break + rest, Break);
    assert (Break + rest)[..|Break|] == Break && (Break + rest)[|Break|..] == rest;
  }

  /** Each sentence contributes exactly one break to the body. */
  lemma {:induction false} CountBody(ps: seq<string>)
    requires TagFree(ps)
    ensures Count(Body(ps) + SpeakClose, Break) == |ps|
    decreases |ps|
  {
    if ps == [] {
      CountClose();
    } else {
      BodyConsClose(ps);
      StripKeepsOut(ps[0], '<');
      CountStep(Strip(ps[0]), Body(ps[1..]) + SpeakClose);
      TagFreeTail(ps);
      CountBody(ps[1..]);
    }
  }

  /** The closing tag holds no break. */
  lemma CountClose()
    ensures Count(Body([]) + SpeakClose, Break) == 0
  {
    assert Body([]) + SpeakClose == SpeakClose;
  }

  /** The body and the closing tag, read from the front. */
  lemma BodyConsClose(ps: seq<string>)
    requires ps != []
    ensures Body(ps) + SpeakClose == Strip(ps[0]) + (Break + (Body(ps[1..]) + SpeakClose))
  {
    BodyCons(ps);
    Regroup(Strip(ps[0]), Break, Body(ps[1..]), SpeakClose);
  }

  lemma Regroup(a: string, b: string, c: string, d: string)
    ensures (a + b) + c + d == a + (b + (c + d))
  {
  }

  /** For text without `<`, the document holds exactly one `<break time="1s"/>` per sentence, empty sentences included. */
  lemma BreakCount(ps: seq<string>)
    requires TagFree(ps)
    ensures Count(SsmlDocument(ps), Break) == |ps|
  {
    var rest := Body(ps) + SpeakClose;
    var doc := SsmlDocument(ps);
    assert doc == SpeakOpen + rest;
    assert |doc| >= |Break| ==> doc[1] == 's' != Break[1];
    assert doc[1..] == SpeakOpen[1..] + rest;
    CountSkipsTagFree(SpeakOpen[1..], rest, Break);
    CountBody(ps);
  }

  /** Text without `<` splits into pieces without `<`. */
  lemma {:induction false} TagFreeOfText(text: string)
    requires '<' !in text
    ensures TagFree(Split(text))
    decreases |text|
  {
    var i := NextBoundary(text, 1);
    if i < |text| {
      var j := RunEnd(text, i);
      var rest := text[j..];
      forall k | 0 <= k < |rest| ensures rest[k] != '<' {
        assert rest[k] == text[j + k];
      }
      TagFreeOfText(rest);
      var ps := Split(text);
      assert ps == [text[..i]] + Split(rest);
      forall k | 0 <= k < |ps| ensures '<' !in ps[k] {
        if k == 0 {
          forall m | 0 <= m < i ensures text[..i][m] != '<' {
            assert text[..i][m] == text[m];
          }
        } else {
          assert ps[k] == Split(rest)[k - 1];
        }
      }
    }
  }

  /** For text without `<`, the SSML holds one `<break time="1s"/>` per piece of the split. */
  lemma BreakCountOfText(text: string)
    requires '<' !in text
    ensures Count(TextToSsml(text), Break) == |Split(text)|
  {
    TagFreeOfText(text);
    BreakCount(Split(text));
  }

  /** For text without `<`, the SSML reads back to the pieces of the split, each stripped, in order. */
  lemma ParseSsmlOfText(text: string)
    requires '<' !in text
    ensures ParseSsml(TextToSsml(text)) == Some(StripAll(Split(text)))
  {
    TagFreeOfText(text);
    ParseSsmlOfDocument(Split(text));
  }

  /** Empty text still yields one (empty) sentence and so one break. */
  lemma EmptyTextSsml()
    ensures TextToSsml("") == SpeakOpen + Break + SpeakClose
  {
    SplitWithoutBoundary("");
    assert Strip("") == "";
    assert [""][..0] == [];
    assert Body([""]) == Break;
  }
}
