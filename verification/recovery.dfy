/** Recovery of notifications that lack their marker: when a closed one is recovered, and what becomes of several
    of them in front of a frame. */
module Recovery {
  import opened Wrappers
  import opened ByteStrings
  import opened NotificationScan
  import opened NotificationParser
  import opened CleanFrames
  import opened FrameStreams
  import opened CleanStreams
  import opened CleanExamples

  /** The text ends with the close tag of the first notification in it. */
  ghost predicate Closed(text: Bytes) {
    StartTag(text, 0).Some? && NotificationEnd(text, StartTag(text, 0).value) == Some(|text|)
  }

  lemma NotificationEndStable(data: Bytes, x: Bytes, start: nat)
    requires NotificationEnd(data, start).Some?
    ensures NotificationEnd(data + x, start) == NotificationEnd(data, start)
  {
    hide Find, CloseTag, NameEnd, EndsName, OccursAt, NotificationEnd;
    NotificationHasName(data, start);
    var nameEnd := NameEnd(data, start + 1);
    NotificationEndParts(data, start, nameEnd);
    NameEndStable(data, x, start + 1);
    assert (data + x)[start + 1..nameEnd] == data[start + 1..nameEnd];
    FindInFront(data, x, CloseTag(data[start + 1..nameEnd]), nameEnd);
    NotificationEndParts(data + x, start, nameEnd);
  }

  /** What follows a closed notification neither moves its start tag nor its end. */
  lemma ClosedStable(text: Bytes, x: Bytes)
    requires Closed(text)
    ensures StartTag(text + x, 0) == StartTag(text, 0)
    ensures NotificationEnd(text + x, StartTag(text, 0).value) == Some(|text|)
  {
    hide StartTag, NotificationEnd, NameEnd;
    var start := StartTag(text, 0).value;
    NotificationEndsInClose(text, start);
    StartTagStable(text, x, 0);
    NotificationEndStable(text, x, start);
  }

  /** A text at the front of the buffer is recovered exactly when it is closed and what follows has a start tag. */
  lemma RecoveredExactlyWhenClosed(text: Bytes, next: Bytes)
    ensures CutBroken(text + next) == Some(Recovered(text)) <==> Closed(text) && StartTag(next, 0).Some?
  {
    hide StartTag, NotificationEnd;
    StartTagShifts(text, next);
    assert (text + next)[..|text|] == text;
    if Closed(text) {
      ClosedStable(text, next);
    }
    if CutBroken(text + next) == Some(Recovered(text)) {
      RecoveredIsClosed(text, next);
    }
  }

  lemma RecoveredIsClosed(text: Bytes, next: Bytes)
    requires CutBroken(text + next) == Some(Recovered(text))
    ensures Closed(text) && StartTag(text + next, |text|).Some?
  {
    hide StartTag, NotificationEnd, NameEnd;
    var all := text + next;
    var start := StartTag(all, 0).value;
    assert all[..|text|] == text;
    NotificationEndsInClose(all, start);
    StartTagInPrefix(all, |text|);
    NotificationEndInPrefix(all, start);
  }

  // ----- Several of them -----

  /** Closed, without marker, and no orphan. */
  ghost predicate Recoverable(text: Bytes) {
    Closed(text) && NoEom(text) && BenignPrefix(text[..StartTag(text, 0).value])
  }

  ghost predicate AllRecoverable(texts: seq<Bytes>) {
    forall i :: 0 <= i < |texts| ==> Recoverable(texts[i])
  }

  function AsRecovered(texts: seq<Bytes>): seq<Piece> {
    seq(|texts|, i requires 0 <= i < |texts| => Recovered(texts[i]))
  }

  /** The texts without any marker. */
  function Bare(texts: seq<Bytes>): Bytes {
    if texts == [] then [] else texts[0] + Bare(texts[1..])
  }

  /** A closed notification ends in `n>`. */
  lemma ClosedEnds(text: Bytes)
    requires Closed(text)
    ensures |text| >= 2 && text[|text| - 1] == '>' && text[|text| - 2] == 'n'
  {
    hide StartTag, Find, NameEnd, XmlLocalName, NOTIFICATION, CloseTag, NotificationEnd;
    var start := StartTag(text, 0).value;
    StartTagShape(text, 0);
    NotificationHasName(text, start);
    var nameEnd := NameEnd(text, start + 1);
    NotificationEndParts(text, start, nameEnd);
    NameEndsInN(text[start + 1..nameEnd]);
    CloseTagShape(text[start + 1..nameEnd]);
    var close := CloseTag(text[start + 1..nameEnd]);
    var i := Find(text, close, nameEnd).value;
    OccurrenceShows(text, close, i, |close| - 1);
    OccurrenceShows(text, close, i, |close| - 2);
  }

  lemma NameEndsInN(qname: Bytes)
    requires XmlLocalName(qname) == NOTIFICATION
    ensures qname != [] && qname[|qname| - 1] == 'n'
  {
    hide *;
    LocalNameIsSuffix(qname);
    NotificationEndsInN();
    assert qname[|qname| - |NOTIFICATION|..][|NOTIFICATION| - 1] == qname[|qname| - 1];
  }

  lemma CloseTagShape(qname: Bytes)
    ensures var close := CloseTag(qname);
      && close[|close| - 1] == '>' && (qname != [] ==> close[|close| - 2] == qname[|qname| - 1])
  {
  }

  lemma NotificationEndsInN()
    ensures |NOTIFICATION| > 0 && NOTIFICATION[|NOTIFICATION| - 1] == 'n'
  {
  }

  lemma EomCharacters()
    ensures |EOM| == EOM_LENGTH == 6
    ensures EOM[0] == EOM[1] == EOM[3] == EOM[4] == ']' && EOM[2] == EOM[5] == '>'
  {
  }

  /** No marker runs over the end of a closed notification. */
  lemma EomBehindClosed(text: Bytes, x: Bytes, i: nat)
    requires Closed(text) && OccursAt(text + x, EOM, i)
    ensures i + 6 <= |text| || |text| <= i
  {
    hide EOM, OccursAt, Closed;
    EomCharacters();
    ClosedEnds(text);
    if i < |text| < i + 6 {
      var all := text + x;
      assert all[|text| - 1] == '>' && all[|text| - 2] == 'n';
      OccurrenceShows(all, EOM, i, |text| - 1 - i);
      if |text| - 2 >= i {
        OccurrenceShows(all, EOM, i, |text| - 2 - i);
      }
    }
  }

  lemma EomShifts(text: Bytes, x: Bytes, i: nat)
    ensures OccursAt(text + x, EOM, |text| + i) <==> OccursAt(x, EOM, i)
  {
    hide EOM;
    if |text| + i + |EOM| <= |text + x| {
      assert (text + x)[|text| + i..|text| + i + |EOM|] == x[i..i + |EOM|];
    }
  }

  /** So behind a closed notification without marker the first marker is where it is in what follows. */
  lemma FirstEomBehind(text: Bytes, x: Bytes)
    requires Closed(text) && NoEom(text)
    ensures Find(text + x, EOM, 0) == ShiftBy(|text|, Find(x, EOM, 0))
  {
    hide Find, EOM, OccursAt, Closed;
    EomCharacters();
    var all := text + x;
    var r, s := Find(all, EOM, 0), Find(x, EOM, 0);
    if r.Some? {
      EomBehindClosed(text, x, r.value);
      if r.value + 6 <= |text| {
        OccursInFront(text, x, EOM, r.value);
        assert false;
      }
      EomShifts(text, x, r.value - |text|);
    }
    if s.Some? {
      EomShifts(text, x, s.value);
    }
  }

  lemma {:induction false} BareNoEom(texts: seq<Bytes>, rest: Bytes)
    requires AllRecoverable(texts)
    ensures Find(Bare(texts) + rest, EOM, 0) == ShiftBy(|Bare(texts)|, Find(rest, EOM, 0))
    decreases |texts|
  {
    hide Find, EOM, Closed, BenignPrefix, StartTag;
    if texts == [] {
      assert [] + rest == rest;
    } else {
      assert Recoverable(texts[0]);
      FirstEomBehind(texts[0], Bare(texts[1..]) + rest);
      BareNoEom(texts[1..], rest);
      assert Bare(texts) + rest == texts[0] + (Bare(texts[1..]) + rest);
    }
  }

  lemma RecoverableIsNoOrphan(text: Bytes, x: Bytes)
    requires Recoverable(text)
    ensures StartTag(text + x, 0).Some? && OrphanLength(text + x) == 0
  {
    hide StartTag, BenignPrefix, NotificationEnd;
    ClosedStable(text, x);
    var start := StartTag(text, 0).value;
    assert (text + x)[..start] == text[..start];
  }

  /** The first start tag of several recoverable texts is that of the first of them. */
  lemma BareStartTag(texts: seq<Bytes>, rest: Bytes)
    requires AllRecoverable(texts) && texts != []
    ensures StartTag(Bare(texts) + rest, 0).Some? && OrphanLength(Bare(texts) + rest) == 0
  {
    hide StartTag, Recoverable, OrphanLength;
    var text, x := texts[0], Bare(texts[1..]) + rest;
    assert Bare(texts) + rest == text + x;
    RecoverableIsNoOrphan(text, x);
  }

  /** One pass of the parser over a broken notification with more behind it. */
  lemma BrokenFirst(piece: Piece, x: Bytes)
    requires CutBroken(piece.text + x) == Some(piece) && NoEom(piece.text + x) && OrphanLength(piece.text + x) == 0
    ensures Parse(piece.text + x) == ([piece] + Parse(x).0, Parse(x).1)
  {
    hide CutBroken, CutFrames, NoEom, OrphanLength, Parse;
    var buf := piece.text + x;
    CutNoFrame(buf);
    BrokenIsNotEmpty(buf);
    assert buf[|piece.text|..] == x;
    ParseUnfolds(buf);
    assert [] + [piece] + Parse(x).0 == [piece] + Parse(x).0;
  }

  lemma BrokenIsNotEmpty(buf: Bytes)
    ensures CutBroken(buf).Some? ==> buf != []
  {
    hide CutBroken;
  }

  lemma RecoverFirst(text: Bytes, x: Bytes)
    requires Recoverable(text) && NoEom(x) && StartTag(x, 0).Some?
    ensures Parse(text + x) == ([Recovered(text)] + Parse(x).0, Parse(x).1)
  {
    hide StartTag, BenignPrefix, Closed, CutBroken, Find, OrphanLength, Parse;
    RecoveredExactlyWhenClosed(text, x);
    FirstEomBehind(text, x);
    RecoverableIsNoOrphan(text, x);
    BrokenFirst(Recovered(text), x);
  }

  lemma RecoversOne(text: Bytes, rest: Bytes)
    requires Recoverable(text) && Quiet(rest)
    ensures Parse(text + rest) == if StartTag(rest, 0).Some? then ([Recovered(text)], rest) else ([], text + rest)
  {
    hide Parse, StartTag, Quiet, Recoverable, NoEom;
    QuietCutsNothing(rest);
    ParseIdleExactlyWhenQuiet(rest);
    if StartTag(rest, 0).Some? {
      RecoverFirst(text, rest);
      assert [Recovered(text)] + [] == [Recovered(text)];
    } else {
      LastStays(text, rest);
      ParseIdleExactlyWhenQuiet(text + rest);
    }
  }

  lemma BareCons(text: Bytes, behind: seq<Bytes>, rest: Bytes)
    ensures Bare([text] + behind) + rest == text + (Bare(behind) + rest)
  {
    assert ([text] + behind)[1..] == behind;
  }

  lemma BareOne(text: Bytes)
    ensures Bare([text]) == text && AsRecovered([]) == [] && AsRecovered([text]) == [Recovered(text)]
  {
    assert [text][1..] == [];
  }

  lemma RecoveredCons(text: Bytes, behind: seq<Bytes>)
    ensures AsRecovered([text] + behind) == [Recovered(text)] + AsRecovered(behind)
  {
  }

  lemma InitCons(text: Bytes, behind: seq<Bytes>)
    requires behind != []
    ensures var all, n := [text] + behind, |behind|;
      all[..n] == [text] + behind[..n - 1] && all[n] == behind[n - 1]
  {
  }

  lemma RecoverableCons(texts: seq<Bytes>)
    requires AllRecoverable(texts) && texts != []
    ensures Recoverable(texts[0]) && AllRecoverable(texts[1..]) && texts == [texts[0]] + texts[1..]
  {
    hide Recoverable;
  }

  /** In front of something quiet that shows a start tag all of them are recovered; the last stays if it shows none. */
  lemma {:induction false} RecoversAll(texts: seq<Bytes>, rest: Bytes)
    requires AllRecoverable(texts) && texts != [] && Quiet(rest)
    ensures var n := |texts| - 1;
      Parse(Bare(texts) + rest) ==
        if StartTag(rest, 0).Some? then (AsRecovered(texts), rest) else (AsRecovered(texts[..n]), texts[n] + rest)
    decreases |texts|
  {
    hide *;
    var n := |texts| - 1;
    var text, behind := texts[0], texts[1..];
    RecoverableCons(texts);
    if behind == [] {
      assert texts == [text] && texts[..0] == [];
      BareOne(text);
      RecoversOne(text, rest);
    } else {
      BareCons(text, behind, rest);
      RecoveredCons(text, behind);
      InitCons(text, behind);
      RecoveredCons(text, behind[..n - 1]);
      QuietCutsNothing(rest);
      BareNoEom(behind, rest);
      NothingFound(behind, rest);
      BareStartTag(behind, rest);
      RecoverFirst(text, Bare(behind) + rest);
      RecoversAll(behind, rest);
    }
  }

  lemma NothingFound(texts: seq<Bytes>, rest: Bytes)
    requires NoEom(rest) && Find(Bare(texts) + rest, EOM, 0) == ShiftBy(|Bare(texts)|, Find(rest, EOM, 0))
    ensures NoEom(Bare(texts) + rest)
  {
  }

  lemma LastStays(text: Bytes, rest: Bytes)
    requires Recoverable(text) && NoEom(rest) && StartTag(rest, 0).None?
    ensures Quiet(text + rest)
  {
    hide StartTag, BenignPrefix, NotificationEnd, Find;
    FirstEomBehind(text, rest);
    ClosedStable(text, rest);
    StartTagShifts(text, rest);
    var start := StartTag(text, 0).value;
    assert (text + rest)[..start] == text[..start];
  }

  // ----- In front of a frame -----

  /** If the frame behind them is complete in the same read, its marker takes them all in. */
  lemma MarkerTakesAll(texts: seq<Bytes>, frame: Bytes)
    requires AllRecoverable(texts) && texts != [] && MarkedAtEnd(Wire(Frame(frame)))
    ensures Parse(Bare(texts) + Wire(Frame(frame))) == ([Frame(Bare(texts) + frame)], [])
  {
    hide *;
    var front, wire := Bare(texts), Wire(Frame(frame));
    BareNoEom(texts, wire);
    BareStartTag(texts, wire);
    MarkedBehind(front, wire);
    WireJoins(front, frame);
    LoneFrameIsCut(front + frame);
  }

  lemma MarkedBehind(front: Bytes, wire: Bytes)
    requires MarkedAtEnd(wire) && Find(front + wire, EOM, 0) == ShiftBy(|front|, Find(wire, EOM, 0))
    ensures MarkedAtEnd(front + wire)
  {
    hide Find;
  }

  lemma WireJoins(front: Bytes, frame: Bytes)
    ensures front + Wire(Frame(frame)) == Wire(Frame(front + frame))
  {
    hide EOM;
  }

  /** Recoverable notifications and a clean frame, in two reads, the first of which takes in all of them and the
      first `k` bytes of the frame.  Each of them is recovered, and the frame is cut as itself, exactly when these
      bytes show the frame's start tag; otherwise the last of them and the frame become one frame. */
  lemma RecoveredInFrontOfFrame(texts: seq<Bytes>, frame: Bytes, k: nat)
    requires AllRecoverable(texts) && texts != [] && Clean(frame) && k < |Wire(Frame(frame))|
    ensures var wire, n := Wire(Frame(frame)), |texts| - 1;
      Feed([Bare(texts) + wire[..k], wire[k..]]) ==
        if StartTag(wire[..k], 0).Some? then (AsRecovered(texts) + [Frame(frame)], [])
        else (AsRecovered(texts[..n]) + [Frame(texts[n] + frame)], [])
  {
    hide *;
    var wire, n := Wire(Frame(frame)), |texts| - 1;
    var first, second, last := Bare(texts) + wire[..k], wire[k..], texts[n];
    CleanExactlyWhenQuietUntilComplete(frame);
    RecoversAll(texts, wire[..k]);
    FeedBoth(first, second);
    assert wire[..k] + second == wire;
    assert last + wire[..k] + second == last + wire;
    if StartTag(wire[..k], 0).Some? {
      CleanIsWellFramed(frame);
      CutEarlyExactlyWhenNotClean(frame);
    } else {
      CleanHasTag(frame);
      LastIsRecoverable(texts);
      MarkerTakesAll([last], frame);
      BareOne(last);
    }
  }

  lemma FeedBoth(first: Bytes, second: Bytes)
    ensures var (pieces, kept) := Parse(first);
      Feed([first, second]) == (pieces + Parse(kept + second).0, Parse(kept + second).1)
  {
    hide Parse, Feed;
    FeedOne(first);
    FeedPush([first], second);
    assert [first] + [second] == [first, second];
  }

  lemma CleanIsWellFramed(frame: Bytes)
    requires Clean(frame)
    ensures WellFramed(frame)
  {
  }

  lemma LastIsRecoverable(texts: seq<Bytes>)
    requires AllRecoverable(texts) && texts != []
    ensures AllRecoverable([texts[|texts| - 1]])
  {
    hide Recoverable;
  }

  /** There are such texts: a start tag and its close tag. */
  lemma StartAndCloseAreRecoverable()
    ensures Recoverable(OUTER + CloseTag(NOTIFICATION))
  {
    hide StartTag, XmlLocalName, NAME, NOTIFICATION, Find, BenignPrefix;
    NameShape();
    NotificationIsLocal();
    var close, text := CloseTag(NOTIFICATION), OUTER + CloseTag(NOTIFICATION);
    NameEndUnique(text, 1, 13);
    assert text[1..13] == NAME[1..];
    assert StartTagAt(text, 0, 0);
    assert text[14..] == close;
    assert OccursAt(text, close, 14);
    var r := Find(text, close, 13);
    OccurrenceShows(text, close, r.value, 0);
    NothingIsBenign(text[..0]);
    CloseHasNoBracket();
    NoBracketNoEom(text);
  }

  lemma CloseHasNoBracket()
    ensures forall j :: 0 <= j < |CloseTag(NOTIFICATION)| ==> CloseTag(NOTIFICATION)[j] != ']'
  {
    hide NAME, NOTIFICATION;
    NameShape();
    assert forall j :: 0 <= j < |NOTIFICATION| ==> NOTIFICATION[j] == NAME[1..][j] == NAME[j + 1];
  }

  // ----- A complete notification that is not closed -----

  /** An empty-element notification is complete XML but has no close tag, so it is abandoned. */
  lemma EmptyElementIsAbandoned()
    ensures CutBroken(SAMPLE + SAMPLE) == Some(Abandoned(SAMPLE))
    ensures Parse(SAMPLE + SAMPLE) == ([Abandoned(SAMPLE)], SAMPLE)
  {
    hide *;
    var two := SAMPLE + SAMPLE;
    TwoSamples();
    SampleHalves();
    CutBrokenUnfolds(two, 0);
    StartsAtOnce(two);
    BrokenFirst(Abandoned(SAMPLE), SAMPLE);
    ParseIdleExactlyWhenQuiet(SAMPLE);
    assert [Abandoned(SAMPLE)] + [] == [Abandoned(SAMPLE)];
  }

  lemma SampleHalves()
    ensures |SAMPLE + SAMPLE| == 30 && (SAMPLE + SAMPLE)[..15] == SAMPLE
  {
    hide SAMPLE;
    SampleShape();
  }

  lemma StartsAtOnce(s: Bytes)
    requires StartTag(s, 0) == Some(0)
    ensures OrphanLength(s) == 0
  {
    hide StartTag, BenignPrefix;
  }

  lemma TwoSamples()
    ensures var two := SAMPLE + SAMPLE;
      && |SAMPLE| == 15 && NoEom(two) && Quiet(SAMPLE)
      && StartTag(two, 0) == Some(0) && NotificationEnd(two, 0).None? && StartTag(two, 1) == Some(15)
  {
    hide StartTag, NotificationEnd, SAMPLE, Find, Quiet, OpensTag, NameEnd, NoEom;
    var two := SAMPLE + SAMPLE;
    TwoSamplesText();
    SampleStartTag(SAMPLE);
    SampleStartTag([]);
    assert SAMPLE + [] == SAMPLE;
    StartTagShifts(SAMPLE, SAMPLE);
    SampleOpens(SAMPLE);
    OnlyTagStarts(two, 1, 15);
    NoBracketNoEom(two);
    NoBracketNoEom(SAMPLE);
    NoCloseNoEnd(two);
    SampleOpens([]);
    OneOpeningIsQuiet(SAMPLE);
  }

  lemma TwoSamplesText()
    ensures var two := SAMPLE + SAMPLE;
      && |SAMPLE| == 15 && (forall j :: 0 <= j < 15 ==> SAMPLE[j] != ']')
      && (forall j :: 0 <= j < |two| ==> two[j] != ']')
      && forall j :: 0 <= j && j + 1 < |two| && two[j] == '<' ==> two[j + 1] != '/'
  {
    hide SAMPLE;
    SampleShape();
  }

  lemma SampleShape()
    ensures |SAMPLE| == 15 && SAMPLE[0] == '<' && SAMPLE[1] != '/'
    ensures forall j :: 0 < j < 15 ==> SAMPLE[j] != '<' && SAMPLE[j] != ']'
  {
    hide NAME;
    NameShape();
  }

  lemma SampleOpens(x: Bytes)
    requires x == SAMPLE || x == []
    ensures forall q: nat :: OpensTag(SAMPLE + x, q) ==> q == 0 || q == 15
    ensures x == [] ==> OnlyOpens(SAMPLE, 0)
  {
    hide SAMPLE;
    SampleShape();
    assert x == [] ==> SAMPLE + x == SAMPLE;
  }
}
