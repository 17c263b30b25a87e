/**
 * The transcript list of `elaborate_script` (main.py:205-232): one pass over
 * the words that, at each speaker change, asks the translator for the text of
 * the run just closed and writes an `<li>` for it; and the choice
 * `get_translation` makes between the service's translation and its error
 * message (main.py:137-143). The translator is a function parameter, and the
 * printing of a float time is the parameter `showTime`.
 */
module Script {
  import opened Wrappers
  import opened Transcript
  import Html
  import Text

  /** The translation service's JSON reply: an `error` member, if present, and `translatedText`. */
  datatype Reply = Reply(error: Option<string>, translatedText: string)

  /** What `get_translation` returns for a reply: the error message if there is one, else the translation. */
  function GetTranslation(reply: Reply): (t: string)
    ensures reply.error.Some? ==> t == reply.error.value
    ensures reply.error.None? ==> t == reply.translatedText
  {
    match reply.error
    case Some(message) => message
    case None => reply.translatedText
  }

  /** An emitted list item: the phrase and its hover title. */
  datatype Item = Item(phrase: Phrase, title: string)

  /** Each phrase paired with the title its translation reply gives. */
  function Itemize(ps: seq<Phrase>, translate: string -> Reply): (items: seq<Item>)
    ensures |items| == |ps|
  {
    seq(|ps|, k requires 0 <= k < |ps| => Item(ps[k], GetTranslation(translate(ps[k].content))))
  }

  /** The phrase texts, in order: what the translator is asked. */
  function Texts(ps: seq<Phrase>): (texts: seq<string>)
    ensures |texts| == |ps|
  {
    seq(|ps|, k requires 0 <= k < |ps| => ps[k].content)
  }

  /** How a phrase start prints in `play(...)`: the integer 0 as "0". */
  function ShowStamp(s: Stamp, showTime: real -> string): string {
    match s
    case Origin => "0"
    case At(t) => showTime(t)
  }

  /**
   * The CSS class naming the item's speaker: "speaker" and then decimal
   * digits that read back as the speaker's number.
   */
  function SpeakerClass(speaker: nat): (c: string)
    ensures |c| > 7 && c[..7] == "speaker"
    ensures forall i :: 7 <= i < |c| ==> Text.IsDigit(c[i])
    ensures Text.DecimalValue(c[7..]) == speaker
  {
    Text.DecimalRoundTrip(speaker);
    var c := "speaker" + Text.NatToString(speaker);
    assert c[7..] == Text.NatToString(speaker);
    c
  }

  /**
   * The click handler: `play(start,end)` with the phrase's times; the first
   * phrase's handler starts at the literal 0.
   */
  function PlayCall(p: Phrase, showTime: real -> string): (call: string)
    ensures |call| >= 7 && call[..5] == "play(" && call[|call| - 1] == ')'
    ensures p.start == Origin ==> call[..7] == "play(0,"
  {
    "play(" + ShowStamp(p.start, showTime) + "," + showTime(p.end) + ")"
  }

  /** The attributes of an item, in the order the source's dict lists them. */
  function ItemAttributes(item: Item, showTime: real -> string): Html.Attributes {
    [ ("class", SpeakerClass(item.phrase.speaker)),
      ("onClick", PlayCall(item.phrase, showTime)),
      ("title", item.title) ]
  }

  /**
   * One line of the list: the `<li>` tag and a newline, with the class, the
   * click handler and the title in that order, then the phrase's text.
   */
  function ItemLine(item: Item, showTime: real -> string): (line: string)
    ensures line == "<li class=\"" + SpeakerClass(item.phrase.speaker)
                    + "\" onClick=\"" + PlayCall(item.phrase, showTime)
                    + "\" title=\"" + item.title + "\"> " + item.phrase.content + " </li>\n"
  {
    LiLine(SpeakerClass(item.phrase.speaker), PlayCall(item.phrase, showTime), item.title, item.phrase.content);
    Html.Tag("li", item.phrase.content, ItemAttributes(item, showTime)) + "\n"
  }

  /** The lines of all items, in order. */
  function ItemLines(items: seq<Item>, showTime: real -> string): string
    decreases |items|
  {
    if |items| == 0 then "" else ItemLines(items[..|items| - 1], showTime) + ItemLine(items[|items| - 1], showTime)
  }

  /** One more item of a prefix adds its line at the end. */
  lemma ItemLinesPrefix(items: seq<Item>, k: nat, showTime: real -> string)
    requires k < |items|
    ensures ItemLines(items[..k + 1], showTime) == ItemLines(items[..k], showTime) + ItemLine(items[k], showTime)
  {
    assert items[..k + 1][..k] == items[..k];
  }

  /** The `<ol id="transcript">` element holding the lines. */
  function TranscriptList(items: seq<Item>, showTime: real -> string): string {
    Html.Tag("ol", ItemLines(items, showTime), [("id", "transcript")])
  }

  /** One more phrase adds its item and its query at the end. */
  lemma ItemizeSnoc(ps: seq<Phrase>, p: Phrase, translate: string -> Reply)
    ensures Itemize(ps + [p], translate) == Itemize(ps, translate) + [Item(p, GetTranslation(translate(p.content)))]
    ensures Texts(ps + [p]) == Texts(ps) + [p.content]
  {
  }

  /** Appending one more word's text to a run's text. */
  lemma SpokenExtend(words: seq<Word>, s: nat, i: nat)
    requires s <= i < |words|
    ensures Spoken(words[s..i + 1]) == Spoken(words[s..i]) + words[i].punctuated + " "
  {
    assert words[s..i + 1][..i - s] == words[s..i];
  }

  /**
   * The loop of `elaborate_script` over the words. It emits the phrases of
   * `Segment(words)`, asks the translator once per phrase, in order, with
   * exactly the phrase's text, and titles each item with the reply's error
   * or translation. It ends with the final run still open: its text, start
   * and end, and the last speaker.
   */
  method ReadWords(words: seq<Word>, translate: string -> Reply)
    returns (items: seq<Item>, queries: seq<string>,
             prevSpeaker: int, lastContent: string, phraseStart: Stamp, phraseEnd: real)
    ensures queries == Texts(Segment(words))
    ensures items == Itemize(Segment(words), translate)
    ensures prevSpeaker == if |words| == 0 then -1 else words[|words| - 1].speaker
    ensures |words| > 0 ==> FinalPhrase(words) == Phrase(prevSpeaker, lastContent, phraseStart, phraseEnd)
  {
    prevSpeaker := -1;
    lastContent := "";
    phraseStart := Origin;
    phraseEnd := 0.0;
    items, queries := [], [];
    ghost var phrases: seq<Phrase> := [];
    var i := 0;
    while i < |words|
      invariant 0 <= i <= |words|
      invariant prevSpeaker == if i == 0 then -1 else words[i - 1].speaker
      invariant i > 0 ==> phraseEnd == words[i - 1].end
      invariant lastContent == Spoken(words[OpenRunStart(words, i)..i])
      invariant phraseStart == OpenRunStamp(words, i)
      invariant phrases == PhrasesBefore(words, i)
      invariant items == Itemize(phrases, translate)
      invariant queries == Texts(phrases)
    {
      var word := words[i];
      ghost var closes := i > 0 && SpeakerChangesAt(words, i);
      if closes {
        ClosingStep(words, i);
      } else {
        ContinuingStep(words, i);
      }
      if prevSpeaker != word.speaker {
        if prevSpeaker > -1 {
          var phrase := Phrase(prevSpeaker, lastContent, phraseStart, phraseEnd);
          var title := GetTranslation(translate(lastContent));
          var item := Item(phrase, title);
          queries := queries + [lastContent];
          items := items + [item];
          ItemizeSnoc(phrases, phrase, translate);
          phrases := phrases + [phrase];
          lastContent := "";
          phraseStart := At(word.start);
        }
        prevSpeaker := word.speaker;
      }
      if closes {
        assert words[i..i] == [];
      }
      SpokenExtend(words, OpenRunStart(words, i + 1), i);
      lastContent := lastContent + word.punctuated + " ";
      phraseEnd := word.end;
      i := i + 1;
    }
    assert words[OpenRunStart(words, i)..i] == words[Covered(words)..];
  }

  /**
   * `elaborate_script` as written: the items of the phrases closed by a
   * speaker change, in the `<ol>` list. The run open at the end is dropped.
   */
  method ElaborateItems(words: seq<Word>, translate: string -> Reply, showTime: real -> string)
    returns (items: seq<Item>, queries: seq<string>, list: string)
    ensures queries == Texts(Segment(words))
    ensures items == Itemize(Segment(words), translate)
    ensures list == TranscriptList(items, showTime)
  {
    var prevSpeaker, lastContent, phraseStart, phraseEnd;
    items, queries, prevSpeaker, lastContent, phraseStart, phraseEnd := ReadWords(words, translate);
    list := RenderList(items, showTime);
  }

  /**
   * `elaborate_script` with the missing flush: after the loop the open run is
   * written as one more item, so every word appears in the list.
   */
  method ElaborateScript(words: seq<Word>, translate: string -> Reply, showTime: real -> string)
    returns (items: seq<Item>, queries: seq<string>, list: string)
    ensures queries == Texts(SegmentFlushed(words))
    ensures items == Itemize(SegmentFlushed(words), translate)
    ensures list == TranscriptList(items, showTime)
  {
    var prevSpeaker, lastContent, phraseStart, phraseEnd;
    items, queries, prevSpeaker, lastContent, phraseStart, phraseEnd := ReadWords(words, translate);
    if prevSpeaker > -1 {
      var phrase := Phrase(prevSpeaker, lastContent, phraseStart, phraseEnd);
      var item := Item(phrase, GetTranslation(translate(lastContent)));
      assert Itemize(Segment(words) + [phrase], translate) == items + [item];
      assert Texts(Segment(words) + [phrase]) == queries + [lastContent];
      items := items + [item];
      queries := queries + [lastContent];
    }
    list := RenderList(items, showTime);
  }

  /** `script += tag("li", ...) + "\n"` for each item, then the `<ol>` around it (main.py:225, main.py:232). */
  method RenderList(items: seq<Item>, showTime: real -> string) returns (list: string)
    ensures list == TranscriptList(items, showTime)
  {
    var script := "";
    var k := 0;
    while k < |items|
      invariant 0 <= k <= |items|
      invariant script == ItemLines(items[..k], showTime)
    {
      ItemLinesPrefix(items, k, showTime);
      script := script + ItemLine(items[k], showTime);
      k := k + 1;
    }
    assert items[..k] == items;
    list := Html.Tag("ol", script, [("id", "transcript")]);
  }

  /** Neighbouring items carry different speaker classes. */
  lemma AdjacentClassesDiffer(words: seq<Word>, k: nat)
    requires k + 1 < |Segment(words)|
    ensures SpeakerClass(Segment(words)[k].speaker) != SpeakerClass(Segment(words)[k + 1].speaker)
  {
    var a := Segment(words)[k].speaker;
    var c := Segment(words)[k + 1].speaker;
    AdjacentPhrasesDiffer(words, k);
    Text.NatToStringInjective(a, c);
    assert SpeakerClass(a)[7..] == Text.NatToString(a);
    assert SpeakerClass(c)[7..] == Text.NatToString(c);
  }

  /** A three-attribute `<li>` line written out. */
  lemma LiLine(c: string, p: string, t: string, x: string)
    ensures Html.Tag("li", x, [("class", c), ("onClick", p), ("title", t)]) + "\n"
         == "<li class=\"" + c + "\" onClick=\"" + p + "\" title=\"" + t + "\"> " + x + " </li>\n"
  {
    Html.TagWithThreeAttributes("li", x, ("class", c), ("onClick", p), ("title", t));
    LiMerge(c, p, t, x);
  }

  /** The `<li>` line with its literal pieces merged. */
  lemma LiMerge(c: string, p: string, t: string, x: string)
    ensures "<" + "li" + Html.Attribute(("class", c)) + Html.Attribute(("onClick", p)) + Html.Attribute(("title", t))
            + "> " + x + " </" + "li" + ">" + "\n"
         == "<li class=\"" + c + "\" onClick=\"" + p + "\" title=\"" + t + "\"> " + x + " </li>\n"
  {
    LiPieces();
    FirstAttribute("<" + "li", "class", c);
    var p1 := "<li class=\"" + c;
    LaterAttribute(p1, "onClick", p);
    var p2 := p1 + "\" onClick=\"" + p;
    LaterAttribute(p2, "title", t);
    var p3 := p2 + "\" title=\"" + t;
    LiClose(p3, x);
  }

  /** The first attribute after the tag name. */
  lemma FirstAttribute(pre: string, k: string, v: string)
    ensures pre + Html.Attribute((k, v)) == pre + (" " + k + "=\"") + v + "\""
  {
  }

  /** An attribute after the closing quote of the one before. */
  lemma LaterAttribute(pre: string, k: string, v: string)
    ensures pre + "\"" + Html.Attribute((k, v)) == pre + ("\" " + k + "=\"") + v + "\""
  {
    assert "\"" + " " == "\" ";
  }

  /** The end of an `<li>` line. */
  lemma LiClose(pre: string, x: string)
    ensures pre + "\"" + "> " + x + " </" + "li" + ">" + "\n" == pre + "\"> " + x + " </li>\n"
  {
    assert "\"" + "> " == "\"> ";
    assert " </" + "li" + ">" + "\n" == " </li>\n";
  }

  /** The literal pieces of an `<li>` line, merged. */
  lemma LiPieces()
    ensures "<" + "li" + (" " + "class" + "=\"") == "<li class=\""
    ensures "\" " + "onClick" + "=\"" == "\" onClick=\""
    ensures "\" " + "title" + "=\"" == "\" title=\""
  {
  }

  /**
   * Item `k` carries phrase `k`; its title is the error message of the reply
   * to that phrase's text when the reply has one, and the translation otherwise.
   */
  lemma ItemTitles(ps: seq<Phrase>, translate: string -> Reply, k: nat)
    requires k < |ps|
    ensures Itemize(ps, translate)[k].phrase == ps[k]
    ensures translate(ps[k].content).error.Some? ==>
              Itemize(ps, translate)[k].title == translate(ps[k].content).error.value
    ensures translate(ps[k].content).error.None? ==>
              Itemize(ps, translate)[k].title == translate(ps[k].content).translatedText
  {
  }
}
