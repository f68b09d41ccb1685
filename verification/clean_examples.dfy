/** Frames put to the test: one that is clean, and some that show what the conditions shut out. */
module CleanExamples {
  import opened Wrappers
  import opened ByteStrings
  import opened NotificationScan
  import opened NotificationParser
  import opened CleanFrames
  import opened FrameStreams
  import opened CleanStreams

  const NAME: Bytes := "<notification"
  const REST: Bytes := "Id/></notification>"

  lemma NameShape()
    ensures |NAME| == 13 && NAME[0] == '<' && NAME[1..] == NOTIFICATION
    ensures forall j :: 0 < j < 13 ==> !EndsName(NAME[j]) && NAME[j] != '<' && NAME[j] != ']' && NAME[j] != ':'
    ensures NAME[1] != '!' && NAME[1] != '?'
  {
  }

  lemma NotificationIsLocal()
    ensures XmlLocalName(NOTIFICATION) == NOTIFICATION
  {
    hide NOTIFICATION;
    NameShape();
    NoColonIsLocal(NOTIFICATION);
  }

  lemma NoColonIsLocal(qname: Bytes)
    requires forall j :: 0 <= j < |qname| ==> qname[j] != ':'
    ensures XmlLocalName(qname) == qname
  {
  }

  lemma NoBracketMarked(text: Bytes)
    requires forall j :: 0 <= j < |text| ==> text[j] != ']'
    ensures MarkedAtEnd(text + EOM)
  {
    hide Find;
    var wire := text + EOM;
    assert wire[|text|..|wire|] == EOM;
    assert OccursAt(wire, EOM, |text|);
    var r := Find(wire, EOM, 0);
    OccurrenceBegins(wire, EOM, r.value);
  }

  // ----- Clean frames exist -----

  const SAMPLE: Bytes := NAME + "/>"

  /** An empty notification is clean, and its start tag stands at 0. */
  lemma SampleIsClean()
    ensures Clean(SAMPLE) && StartTag(Wire(Frame(SAMPLE)), 0) == Some(0)
  {
    hide StartTag, Find, BenignPrefix, MarkedAtEnd, XmlLocalName, NAME;
    var wire := Wire(Frame(SAMPLE));
    NameShape();
    NoBracketMarked(SAMPLE);
    SampleStartTag(EOM);
    EomOpensNothing();
    assert OnlyOpens(wire, 0);
    OnlyOneShows(wire, 0);
    NothingIsBenign(wire[..0]);
  }

  lemma OnlyOneShows(wire: Bytes, first: nat)
    requires OnlyOpens(wire, first)
    ensures ShowsNoOther(wire, first)
  {
    hide XmlLocalName, NameEnd, InsideEarlierName, OpensTag;
  }

  lemma SampleStartTag(x: Bytes)
    ensures StartTag(SAMPLE + x, 0) == Some(0) && NameEnd(SAMPLE + x, 1) == 13
  {
    hide StartTag, NAME, XmlLocalName;
    NameShape();
    NotificationIsLocal();
    var wire := SAMPLE + x;
    NameEndUnique(wire, 1, 13);
    assert wire[1..13] == NAME[1..];
    assert StartTagAt(wire, 0, 0);
  }

  /** No tag opens but at `first`. */
  ghost predicate OnlyOpens(s: Bytes, first: nat) {
    forall p: nat :: OpensTag(s, p) ==> p == first
  }

  /** Without a second tag and without EOM there is nothing to cut. */
  lemma OneOpeningIsQuiet(s: Bytes)
    requires OnlyOpens(s, 0) && NoEom(s)
    ensures Quiet(s)
  {
    hide Find, StartTag, BenignPrefix, XmlLocalName, NotificationEnd;
    forall from: nat | from > 0 ensures StartTag(s, from).None? {
    }
    if StartTag(s, 0).Some? {
      StartTagOpens(s, 0, StartTag(s, 0).value);
      NothingIsBenign(s[..0]);
    }
  }

  lemma OnlyOpensInPrefix(s: Bytes, first: nat, n: nat)
    requires OnlyOpens(s, first) && n <= |s|
    ensures OnlyOpens(s[..n], first)
  {
    forall p: nat | OpensTag(s[..n], p) ensures p == first {
      assert OpensTag(s, p);
    }
  }

  // ----- A notification that is not clean -----

  /** `<notification>` and `<notificationId/></notification>`: together one well-formed notification. */
  const OUTER: Bytes := NAME + ">"
  const INNER: Bytes := NAME + REST

  /** A notification whose body has a tag that begins like its own.  Read at once it is one frame.  Split
      behind the second `<notification` it is an abandoned notification and an unrelated frame, although
      nothing was lost. */
  lemma NestedNotificationIsNotClean()
    ensures !Clean(OUTER + INNER)
    ensures Wire(Frame(OUTER + INNER)) == (OUTER + NAME) + (REST + EOM)
    ensures Feed([Wire(Frame(OUTER + INNER))]) == ([Frame(OUTER + INNER)], [])
    ensures Feed([OUTER + NAME, REST + EOM]) == ([Abandoned(OUTER), Frame(INNER)], [])
  {
    hide Parse, Quiet, Clean, WellFramed, OUTER, INNER, NAME, REST, EOM, Feed, OrphanLength;
    var first, second, wire := OUTER + NAME, REST + EOM, Wire(Frame(OUTER + INNER));
    assert first + second == wire by { NestedSplits(); }
    FirstReadAbandons();
    SecondReadFrames();
    NestedReadAtOnce();
    FeedOne(wire);
    FeedOne(first);
    NestedFeed();
    assert wire[..|first|] == first;
    ParseIdleExactlyWhenQuiet(first);
    SecondIsNotEmpty();
    CleanExactlyWhenQuietUntilComplete(OUTER + INNER);
  }

  lemma NestedSplits()
    ensures (OUTER + NAME) + (REST + EOM) == Wire(Frame(OUTER + INNER))
    ensures NAME + (REST + EOM) == Wire(Frame(INNER))
  {
    hide NAME, REST, EOM;
  }

  lemma SecondIsNotEmpty()
    ensures |REST + EOM| > 0
  {
    hide REST, EOM;
    EomLength();
  }

  lemma NestedFeed()
    requires Parse(OUTER + NAME) == ([Abandoned(OUTER)], NAME)
    requires Parse(NAME + (REST + EOM)) == ([Frame(INNER)], [])
    ensures Feed([OUTER + NAME, REST + EOM]) == ([Abandoned(OUTER), Frame(INNER)], [])
  {
    hide Parse, OUTER, INNER, NAME, REST, EOM;
    var first, second := OUTER + NAME, REST + EOM;
    FeedOne(first);
    FeedPush([first], second);
    assert [first] + [second] == [first, second];
    assert [Abandoned(OUTER)] + [Frame(INNER)] == [Abandoned(OUTER), Frame(INNER)];
  }

  lemma RestShape()
    ensures |REST| == 19 && !EndsName(REST[0]) && !EndsName(REST[1]) && EndsName(REST[2])
    ensures REST[0] != ':' && REST[1] != ':'
    ensures forall j :: 0 <= j < 19 ==> REST[j] != ']'
    ensures forall j :: 0 <= j < 19 && REST[j] == '<' ==> j + 1 < 19 && REST[j + 1] == '/'
  {
  }

  lemma FirstStartTags()
    ensures var first := OUTER + NAME;
      && |first| == 27 && StartTag(first, 0) == Some(0) && StartTag(first, 1) == Some(14)
      && NameEnd(first, 1) == 13
  {
    hide StartTag, XmlLocalName, NAME, NOTIFICATION;
    NameShape();
    var first := OUTER + NAME;
    NameEndUnique(first, 1, 13);
    NameEndUnique(first, 15, 27);
    assert first[1..13] == NAME[1..] == first[15..27];
    NotificationIsLocal();
    assert StartTagAt(first, 0, 0);
    assert StartTagAt(first, 1, 14);
  }

  lemma NothingEndsInFirst()
    ensures NoEom(OUTER + NAME) && NotificationEnd(OUTER + NAME, 0).None?
  {
    hide Find, NAME, StartTag;
    NameShape();
    FirstStartTags();
    var first := OUTER + NAME;
    assert forall j :: 0 <= j < 27 ==> first[j] != ']' && first[j] != '/';
    NoBracketNoEom(first);
    NoCloseNoEnd(first);
  }

  lemma NoBracketNoEom(s: Bytes)
    requires forall j :: 0 <= j < |s| ==> s[j] != ']'
    ensures NoEom(s)
  {
    hide Find;
    var r := Find(s, EOM, 0);
    if r.Some? {
      OccurrenceBegins(s, EOM, r.value);
      assert false;
    }
  }

  lemma NoCloseNoEnd(s: Bytes)
    requires |s| > 1 && forall j :: 0 <= j && j + 1 < |s| && s[j] == '<' ==> s[j + 1] != '/'
    ensures NotificationEnd(s, 0).None?
  {
    hide Find, NameEnd;
    var close := CloseTag(s[1..NameEnd(s, 1)]);
    assert close[0] == '<' && close[1] == '/';
    var r := Find(s, close, NameEnd(s, 1));
    if r.Some? {
      OccurrenceShows(s, close, r.value, 0);
      OccurrenceShows(s, close, r.value, 1);
      assert false;
    }
  }

  lemma FirstReadAbandons()
    ensures Parse(OUTER + NAME) == ([Abandoned(OUTER)], NAME)
  {
    hide Find, StartTag, NotificationEnd, BenignPrefix, NAME, Quiet, CutFrames;
    var first := OUTER + NAME;
    FirstStartTags();
    NothingEndsInFirst();
    CutNoFrame(first);
    NameShape();
    assert first[..14] == OUTER && first[14..] == NAME;
    assert CutBroken(first) == Some(Abandoned(OUTER));
    NoBracketNoEom(NAME);
    OneOpeningIsQuiet(NAME);
    ParseIdleExactlyWhenQuiet(NAME);
    assert [] + [Abandoned(OUTER)] + [] == [Abandoned(OUTER)];
  }

  lemma InnerHasNoStartTag()
    ensures StartTag(INNER + EOM, 0).None? && MarkedAtEnd(INNER + EOM)
  {
    hide StartTag, XmlLocalName, NAME, REST, NOTIFICATION, Find;
    NameShape();
    RestShape();
    var wire := INNER + EOM;
    NoBracketMarked(INNER);
    NameEndUnique(wire, 1, 15);
    NoColonIsLocal(wire[1..15]);
    assert |NOTIFICATION| == 12 by { assert |NAME[1..]| == 12; }
    InnerOpensOnce(wire);
    assert forall p: nat :: OpensTag(wire, p) ==> p == 0;
  }

  lemma InnerOpensOnce(wire: Bytes)
    requires wire == NAME + REST + EOM
    ensures forall p :: 0 < p < |wire| && wire[p] == '<' ==> p + 1 < |wire| && wire[p + 1] == '/'
  {
    hide NAME, REST;
    NameShape();
    RestShape();
    EomOpensNothing();
    forall p | 0 < p < |wire| ensures wire[p] == '<' ==> p + 1 < |wire| && wire[p + 1] == '/' {
      if p < 13 {
        assert wire[p] == NAME[p];
      } else if p < 32 {
        var j := p - 13;
        assert wire[p] == REST[j];
        assert j + 1 < 19 ==> wire[p + 1] == REST[j + 1];
      } else {
        assert wire[p] == EOM[p - 32];
      }
    }
  }

  lemma EomOpensNothing()
    ensures forall j :: 0 <= j < |EOM| ==> EOM[j] != '<'
  {
  }

  lemma SecondReadFrames()
    ensures Parse(NAME + (REST + EOM)) == ([Frame(INNER)], [])
  {
    hide Parse, StartTag, MarkedAtEnd, NAME, REST, EOM, INNER;
    NestedSplits();
    InnerHasNoStartTag();
    LoneFrameIsCut(INNER);
  }

  lemma NestedReadAtOnce()
    ensures Parse(Wire(Frame(OUTER + INNER))) == ([Frame(OUTER + INNER)], [])
  {
    hide Parse, StartTag, MarkedAtEnd, NAME, REST, EOM, BenignPrefix;
    NestedSplits();
    FirstStartTags();
    StartTagStable(OUTER + NAME, REST + EOM, 0);
    NestedIsMarked();
    LoneFrameIsCut(OUTER + INNER);
  }

  lemma NestedIsMarked()
    ensures MarkedAtEnd(OUTER + INNER + EOM)
  {
    hide NAME, REST, EOM, MarkedAtEnd;
    NameShape();
    RestShape();
    NoBracketMarked(OUTER + INNER);
  }

  // ----- Frames without start tag -----

  lemma TaglessIfNothingStarts(frame: Bytes)
    requires var wire := Wire(Frame(frame)); MarkedAtEnd(wire) && OnlyOpens(wire, 0) && StartTag(wire, 0).None?
    ensures Tagless(frame)
  {
    hide Wire, MarkedAtEnd, StartTag, Quiet, OpensTag, NoEom, OnlyOpens;
    var wire := Wire(Frame(frame));
    forall n | 0 <= n < |wire| ensures Quiet(wire[..n]) {
      MarkedHasNoEarlierEom(wire, n);
      OnlyOpensInPrefix(wire, 0, n);
      OneOpeningIsQuiet(wire[..n]);
    }
  }

  lemma InnerIsTagless()
    ensures Tagless(INNER)
  {
    hide StartTag, MarkedAtEnd, NAME, REST, EOM;
    InnerHasNoStartTag();
    InnerOpensOnce(INNER + EOM);
    assert OnlyOpens(INNER + EOM, 0);
    TaglessIfNothingStarts(INNER);
  }

  lemma NothingIsTagless()
    ensures Wire(Frame([])) == EOM && MarkedAtEnd(EOM) && StartTag(EOM, 0).None? && Tagless([])
  {
    hide StartTag, MarkedAtEnd, EOM;
    EomOpensNothing();
    NoBracketMarked([]);
    assert [] + EOM == EOM;
    assert OnlyOpens(EOM, 0);
    var tag := StartTag(EOM, 0);
    if tag.Some? {
      StartTagOpens(EOM, 0, tag.value);
      assert false;
    }
    TaglessIfNothingStarts([]);
  }

  lemma NameStartTag()
    ensures StartTag(NAME, 0) == Some(0)
  {
    hide StartTag, NAME, XmlLocalName;
    NameShape();
    NotificationIsLocal();
    NameEndUnique(NAME, 1, 13);
    assert NAME[1..13] == NAME[1..];
    assert StartTagAt(NAME, 0, 0);
  }

  /** Clean frames followed by frames without start tag need not survive: an empty frame is an orphan if
      the next read ends where the name of a `notificationId` still passes for a notification. */
  lemma TaglessNeedNotSurvive()
    ensures Tagless([]) && Tagless(INNER)
    ensures Sent([[], INNER]) == (EOM + NAME) + (REST + EOM)
    ensures Feed([EOM + NAME, REST + EOM]) == ([Orphan(EOM), Frame(INNER)], [])
    ensures !Survives([[], INNER])
  {
    hide Tagless, Parse, Wire, Sent, AsPieces, Feed, Joined, MarkedAtEnd, StartTag, NAME, REST, EOM, INNER;
    NothingIsTagless();
    InnerIsTagless();
    NestedSplits();
    SentTwo([], INNER);
    assert EOM + (NAME + (REST + EOM)) == (EOM + NAME) + (REST + EOM);
    EmptyFrameIsOrphan();
    SecondReadFrames();
    FeedOne(EOM + NAME);
    FeedPush([EOM + NAME], REST + EOM);
    assert [EOM + NAME] + [REST + EOM] == [EOM + NAME, REST + EOM];
    assert [Orphan(EOM)] + [Frame(INNER)] == [Orphan(EOM), Frame(INNER)];
    assert [Orphan(EOM), Frame(INNER)][0] != [Frame([]), Frame(INNER)][0];
  }

  lemma EmptyFrameIsOrphan()
    ensures Parse(EOM + NAME) == ([Orphan(EOM)], NAME)
  {
    hide Find, StartTag, BenignPrefix, NAME, EOM, Quiet, CutFrames, CutBroken, MarkedAtEnd;
    EomLength();
    NameShape();
    NothingIsTagless();
    BehindTagless(EOM, NAME);
    NameStartTag();
    MarkedIsNotBenign(EOM);
    assert (EOM + NAME)[..6] == EOM && (EOM + NAME)[6..] == NAME;
    NoBracketNoEom(NAME);
    assert OnlyOpens(NAME, 0);
    OneOpeningIsQuiet(NAME);
    ParseIdleExactlyWhenQuiet(NAME);
    assert [Orphan(EOM)] + [] == [Orphan(EOM)];
  }

  // ----- A declaration that begins in one frame and ends in the next -----

  const UNFINISHED: Bytes := "<?xml"
  const DECLARATION: Bytes := UNFINISHED + "?>"

  /** And a frame without start tag may survive in front of a notification: together, an unfinished XML
      declaration with its marker and a finished one read as a single declaration. */
  lemma TaglessMaySurvive()
    ensures Tagless(UNFINISHED) && Clean(DECLARATION + SAMPLE)
    ensures Survives([UNFINISHED, DECLARATION + SAMPLE])
  {
    hide Tagless, Clean, Wire, UNFINISHED, DECLARATION, SAMPLE, BenignFrom;
    var frames := [UNFINISHED, DECLARATION + SAMPLE];
    UnfinishedIsTagless();
    DeclaredSampleIsClean();
    forall i, m, n | 0 <= i < m < |frames| && 0 <= n <= |Wire(Frame(frames[m]))| && AllTagless(frames[i..m])
      ensures BenignFrom(frames, i, m, n)
    {
      DeclaredBenignFrom(n);
    }
    HarmlessSurvives(frames);
  }

  lemma DeclaredBenignFrom(n: nat)
    requires n <= |Wire(Frame(DECLARATION + SAMPLE))|
    ensures BenignFrom([UNFINISHED, DECLARATION + SAMPLE], 0, 1, n)
  {
    hide Tagless, Clean, Wire, StartTag, BenignPrefix, UNFINISHED, DECLARATION, SAMPLE, OpensTag, Sent, EOM;
    var frames := [UNFINISHED, DECLARATION + SAMPLE];
    var wire := Wire(Frame(frames[1]));
    DeclaredSampleIsClean();
    var tag := StartTag(wire[..n], 0);
    if tag.Some? {
      OnlyOpensInPrefix(wire, 7, n);
      StartTagOpens(wire[..n], 0, tag.value);
      assert frames[0..1] == [UNFINISHED];
      SentOne(UNFINISHED);
      UnfinishedIsTagless();
      TwoDeclarationsAreOne();
    }
  }

  lemma UnfinishedText()
    ensures |UNFINISHED| == 5 && UNFINISHED[0] == '<' && UNFINISHED[1] == '?'
    ensures forall j :: 0 < j < 5 ==> UNFINISHED[j] != '<' && UNFINISHED[j] != '>'
    ensures forall j :: 0 <= j < 5 ==> UNFINISHED[j] != ']'
    ensures forall j :: 1 < j < 5 ==> UNFINISHED[j] != '?'
    ensures UNFINISHED == "<?xml"
  {
  }

  lemma UnfinishedIsTagless()
    ensures Tagless(UNFINISHED) && Wire(Frame(UNFINISHED)) == UNFINISHED + EOM
  {
    hide StartTag, MarkedAtEnd, UNFINISHED, EOM;
    EomOpensNothing();
    UnfinishedText();
    var wire := UNFINISHED + EOM;
    NoBracketMarked(UNFINISHED);
    assert forall p: nat :: !OpensTag(wire, p);
    var tag := StartTag(wire, 0);
    if tag.Some? {
      StartTagOpens(wire, 0, tag.value);
      assert false;
    }
    TaglessIfNothingStarts(UNFINISHED);
  }

  lemma DeclaredSampleIsClean()
    ensures Clean(DECLARATION + SAMPLE)
    ensures OnlyOpens(Wire(Frame(DECLARATION + SAMPLE)), 7) && |DECLARATION| == 7
    ensures Wire(Frame(DECLARATION + SAMPLE))[..7] == DECLARATION
  {
    hide StartTag, MarkedAtEnd, UNFINISHED, EOM, NAME, BenignPrefix, NotificationTagAt, InsideEarlierName, XmlLocalName;
    var frame := DECLARATION + SAMPLE;
    var wire := Wire(Frame(frame));
    UnfinishedText();
    NameShape();
    EomOpensNothing();
    NoBracketMarked(frame);
    assert wire == DECLARATION + (SAMPLE + EOM);
    DeclaredOpens(wire);
    SampleStartTag(EOM);
    StartTagShifts(DECLARATION, SAMPLE + EOM);
    OnlyTagStarts(wire, 0, 7);
    OnlyOneShows(wire, 7);
    OneDeclarationIsBenign();
  }

  lemma DeclaredOpens(wire: Bytes)
    requires wire == DECLARATION + (SAMPLE + EOM)
    ensures OnlyOpens(wire, 7)
  {
    hide UNFINISHED, EOM, NAME;
    UnfinishedText();
    NameShape();
    EomOpensNothing();
  }

  /** The only tag behind `from` is the first start tag there if it is one for a scan that begins with it. */
  lemma OnlyTagStarts(data: Bytes, from: nat, p: nat)
    requires from <= p && StartTag(data, p) == Some(p)
    requires forall q: nat :: from <= q && OpensTag(data, q) ==> q == p
    ensures StartTag(data, from) == Some(p)
  {
    hide StartTag, XmlLocalName, NameEnd;
    assert StartTagAt(data, from, p);
    StartTagOpens(data, from, StartTag(data, from).value);
  }

  lemma OneDeclarationIsBenign()
    ensures BenignPrefix(DECLARATION)
  {
    hide UNFINISHED, BenignPrefix, Find;
    UnfinishedText();
    DeclarationEnds(UNFINISHED);
    BenignExactlyWhenBlankOrDeclaration(DECLARATION);
    assert IsDeclarationBetweenBlanks(DECLARATION, [], DECLARATION, []);
  }

  lemma TwoDeclarationsAreOne()
    ensures BenignPrefix(UNFINISHED + EOM + DECLARATION)
  {
    hide UNFINISHED, BenignPrefix, Find, EOM;
    UnfinishedText();
    EomText();
    EomAsksNothing();
    var body := UNFINISHED + EOM + UNFINISHED;
    DeclarationEnds(body);
    BenignExactlyWhenBlankOrDeclaration(UNFINISHED + EOM + DECLARATION);
    assert body + "?>" == UNFINISHED + EOM + DECLARATION;
    assert IsDeclarationBetweenBlanks(body + "?>", [], body + "?>", []);
  }

  lemma EomAsksNothing()
    ensures forall j :: 0 <= j < |EOM| ==> EOM[j] != '?'
  {
  }

  lemma DeclarationEnds(body: Bytes)
    requires IsPrefix("<?xml", body)
    requires forall j :: 0 <= j < |body| && body[j] == '?' ==> j + 1 < |body| && body[j + 1] != '>'
    ensures IsXmlDeclaration(body + "?>")
  {
    hide Find;
    var decl := body + "?>";
    var r := Find(decl, "?>", 0);
    assert decl[|body|..] == "?>";
    assert OccursAt(decl, "?>", |body|);
    OccurrenceShows(decl, "?>", r.value, 0);
    OccurrenceShows(decl, "?>", r.value, 1);
  }
}
