/** What the notification reader cuts out of its receive buffer: end-of-message framing
    (section 4.3 of RFC 6242) with recovery from missing or misplaced markers. */
module NotificationParser {
  import opened Wrappers
  import opened ByteStrings
  import opened NotificationScan

  const EOM: Bytes := "]]>]]>"
  const EOM_LENGTH: nat := 6

  lemma EomLength()
    ensures |EOM| == EOM_LENGTH
  {
  }

  /** A stretch of bytes leaving the receive buffer. */
  datatype Piece =
    | Orphan(text: Bytes)     // in front of a start tag, not benign: dropped
    | Frame(text: Bytes)      // ended by EOM, which is not part of `text`
    | Recovered(text: Bytes)  // closed notification without EOM, another one follows
    | Abandoned(text: Bytes)  // unclosed notification, another one follows
    | Guarded(text: Bytes)    // whole buffer, cut by the size or the time guard
    | Cleared(text: Bytes)    // whole buffer, thrown away with its session

  /** The bytes of a piece as they were on the wire. */
  function Wire(piece: Piece): Bytes {
    if piece.Frame? then piece.text + EOM else piece.text
  }

  function WireAll(pieces: seq<Piece>): Bytes {
    if pieces == [] then [] else WireAll(pieces[..|pieces| - 1]) + Wire(pieces[|pieces| - 1])
  }

  lemma {:induction false} WireAllConcat(a: seq<Piece>, b: seq<Piece>)
    ensures WireAll(a + b) == WireAll(a) + WireAll(b)
  {
    hide Wire;
    if b == [] {
      assert a + b == a;
    } else {
      var n := |b| - 1;
      assert (a + b)[..|a + b| - 1] == a + b[..n];
      WireAllConcat(a, b[..n]);
    }
  }

  lemma WireAllPush(pieces: seq<Piece>, piece: Piece)
    ensures WireAll(pieces + [piece]) == WireAll(pieces) + Wire(piece)
  {
    hide Wire;
    assert (pieces + [piece])[..|pieces|] == pieces;
  }

  lemma WireAllCons(piece: Piece, pieces: seq<Piece>)
    ensures WireAll([piece] + pieces) == Wire(piece) + WireAll(pieces)
  {
    hide Wire;
    WireAllConcat([piece], pieces);
    assert [piece][..0] == [];
    assert WireAll([piece]) == WireAll([]) + Wire(piece);
  }

  predicate NoEom(s: Bytes) {
    Find(s, EOM, 0).None?
  }

  /** EOM occurs in `s` once, at its very end. */
  predicate MarkedAtEnd(s: Bytes) {
    |s| >= EOM_LENGTH && Find(s, EOM, 0) == Some(|s| - EOM_LENGTH)
  }

  // ----- The parser -----

  /** Length of the orphan prefix; 0 when there is none. */
  ghost function OrphanLength(buf: Bytes): (n: nat)
    ensures n <= |buf|
  {
    var start := StartTag(buf, 0);
    if start.Some? && start.value > 0 && !BenignPrefix(buf[..start.value]) then start.value else 0
  }

  /** The inner loop: cut EOM-terminated frames as long as there are any. */
  ghost function CutFrames(buf: Bytes): (r: (seq<Piece>, Bytes))
    ensures |r.1| <= |buf| && (r.0 != [] ==> |r.1| < |buf|) && (r.0 == [] ==> r.1 == buf)
    decreases |buf|
  {
    match Find(buf, EOM, 0)
    case None => ([], buf)
    case Some(eom) =>
      var (frames, rest) := CutFrames(buf[eom + EOM_LENGTH..]);
      ([Frame(buf[..eom])] + frames, rest)
  }

  /** The notification at the front of an EOM-free buffer, if another one starts behind it. */
  ghost function CutBroken(buf: Bytes): (r: Option<Piece>)
    ensures r.Some? ==> 0 < |r.value.text| <= |buf| && r.value.text == buf[..|r.value.text|] && !r.value.Frame?
  {
    var start := StartTag(buf, 0);
    if start.None? then None
    else
      var end := NotificationEnd(buf, start.value);
      if end.Some? then
        if StartTag(buf, end.value).Some? then Some(Recovered(buf[..end.value])) else None
      else
        var next := StartTag(buf, start.value + 1);
        if next.Some? then Some(Abandoned(buf[..next.value])) else None
  }

  /** `process_rx_buffer_locked` as a function of the buffer: the pieces it cuts and what it leaves. */
  ghost function Parse(buf: Bytes): (seq<Piece>, Bytes)
    decreases |buf|
  {
    var orphan := OrphanLength(buf);
    if buf == [] then ([], [])
    else if orphan > 0 then
      var (pieces, rest) := Parse(buf[orphan..]);
      ([Orphan(buf[..orphan])] + pieces, rest)
    else
      var (frames, left) := CutFrames(buf);
      var broken := CutBroken(left);
      if left == [] then (frames, [])
      else if broken.Some? then
        var (pieces, rest) := Parse(left[|broken.value.text|..]);
        (frames + [broken.value] + pieces, rest)
      else if frames == [] then ([], buf)
      else
        var (pieces, rest) := Parse(left);
        (frames + pieces, rest)
  }

  // ----- One pass -----

  lemma CutBrokenUnfolds(buf: Bytes, start: nat)
    requires StartTag(buf, 0) == Some(start)
    ensures var end := NotificationEnd(buf, start);
      var next := StartTag(buf, if end.Some? then end.value else start + 1);
      && (next.Some? ==> next.value < |buf|)
      && CutBroken(buf) == if next.None? then None
                        else if end.Some? then Some(Recovered(buf[..end.value])) else Some(Abandoned(buf[..next.value]))
  {
    hide StartTag, StartTagAt, NotificationEnd;
  }

  /** One pass of the parser. */
  lemma ParseUnfolds(buf: Bytes)
    ensures buf == [] ==> Parse(buf) == ([], [])
    ensures var n := OrphanLength(buf);
      buf != [] && n > 0 ==>
        && Parse(buf).0 == [Orphan(buf[..n])] + Parse(buf[n..]).0 && Parse(buf).1 == Parse(buf[n..]).1
    ensures var (frames, left) := CutFrames(buf);
      var broken := CutBroken(left);
      buf != [] && OrphanLength(buf) == 0 ==>
        if left == [] then Parse(buf) == (frames, [])
        else if broken.Some? then
          var rest := Parse(left[|broken.value.text|..]);
          Parse(buf).0 == frames + [broken.value] + rest.0 && Parse(buf).1 == rest.1
        else if frames == [] then Parse(buf) == ([], buf)
        else Parse(buf).0 == frames + Parse(left).0 && Parse(buf).1 == Parse(left).1
  {
    hide OrphanLength, CutFrames, CutBroken;
  }

  // ----- Conservation -----

  lemma SplitAtEom(buf: Bytes, eom: nat)
    requires OccursAt(buf, EOM, eom)
    ensures eom + EOM_LENGTH <= |buf| && buf == Wire(Frame(buf[..eom])) + buf[eom + EOM_LENGTH..]
  {
  }

  lemma CutFramesUnfolds(buf: Bytes, eom: nat)
    requires Find(buf, EOM, 0) == Some(eom)
    ensures eom + EOM_LENGTH <= |buf|
    ensures var rest := CutFrames(buf[eom + EOM_LENGTH..]);
      CutFrames(buf) == ([Frame(buf[..eom])] + rest.0, rest.1)
  {
    hide Find, EOM, OccursAt, Wire;
    SplitAtEom(buf, eom);
  }

  lemma CutFramesStops(buf: Bytes)
    requires NoEom(buf)
    ensures CutFrames(buf) == ([], buf)
  {
  }

  lemma {:induction false} CutFramesConserves(buf: Bytes)
    ensures var (frames, rest) := CutFrames(buf); WireAll(frames) + rest == buf && NoEom(rest)
    decreases |buf|
  {
    hide WireAll, Wire, Find, EOM, CutFrames, OccursAt;
    WireNothing();
    var eom := Find(buf, EOM, 0);
    if eom.None? {
      CutFramesStops(buf);
    } else {
      SplitAtEom(buf, eom.value);
      CutFramesUnfolds(buf, eom.value);
      var frame, tail := Frame(buf[..eom.value]), buf[eom.value + EOM_LENGTH..];
      var (frames, rest) := CutFrames(tail);
      CutFramesConserves(tail);
      WireAllCons(frame, frames);
      assert Wire(frame) + WireAll(frames) + rest == Wire(frame) + (WireAll(frames) + rest);
    }
  }

  lemma WireNothing()
    ensures WireAll([]) == []
  {
  }

  /** No byte is lost, duplicated or moved: the pieces on the wire followed by the rest are the buffer. */
  lemma {:induction false} ParseConserves(buf: Bytes)
    ensures WireAll(Parse(buf).0) + Parse(buf).1 == buf
    decreases |buf|
  {
    hide WireAll, OrphanLength, CutFrames, CutBroken, EOM;
    WireNothing();
    var orphan := OrphanLength(buf);
    if buf == [] {
    } else if orphan > 0 {
      ParseConserves(buf[orphan..]);
      WireAllCons(Orphan(buf[..orphan]), Parse(buf[orphan..]).0);
    } else {
      var (frames, left) := CutFrames(buf);
      CutFramesConserves(buf);
      var broken := CutBroken(left);
      if left == [] {
      } else if broken.Some? {
        var behind := left[|broken.value.text|..];
        ParseConserves(behind);
        WireAllCons(broken.value, Parse(behind).0);
        WireAllConcat(frames, [broken.value] + Parse(behind).0);
        assert frames + [broken.value] + Parse(behind).0 == frames + ([broken.value] + Parse(behind).0);
      } else if frames != [] {
        ParseConserves(left);
        WireAllConcat(frames, Parse(left).0);
      }
    }
  }

  // ----- Normal form -----

  /** Nothing to cut: no EOM, at most a benign prefix before the first start tag, and no second
      start tag, counted from the close tag of a closed notification and from the start tag of an open one. */
  ghost predicate Quiet(buf: Bytes) {
    && NoEom(buf)
    && (StartTag(buf, 0).Some? ==>
          var start := StartTag(buf, 0).value;
          && BenignPrefix(buf[..start])
          && var end := NotificationEnd(buf, start);
             StartTag(buf, if end.Some? then end.value else start + 1).None?)
  }

  /** What the parser leaves is in normal form. */
  lemma {:induction false} ParseLeavesQuiet(buf: Bytes)
    ensures Quiet(Parse(buf).1)
    decreases |buf|
  {
    var orphan := OrphanLength(buf);
    if buf == [] {
    } else if orphan > 0 {
      ParseLeavesQuiet(buf[orphan..]);
    } else {
      var (frames, left) := CutFrames(buf);
      CutFramesConserves(buf);
      var broken := CutBroken(left);
      if left == [] {
      } else if broken.Some? {
        ParseLeavesQuiet(left[|broken.value.text|..]);
      } else if frames != [] {
        ParseLeavesQuiet(left);
      } else {
        QuietIfNothingCut(buf);
      }
    }
  }

  lemma QuietIfNothingCut(buf: Bytes)
    requires OrphanLength(buf) == 0 && NoEom(buf) && CutBroken(buf).None?
    ensures Quiet(buf)
  {
    var start := StartTag(buf, 0);
    if start.Some? && start.value == 0 {
      TrimsToNothing(buf[..0]);
    }
  }

  /** The parser leaves a buffer alone exactly when it is in normal form; so a second pass does nothing. */
  lemma ParseIdleExactlyWhenQuiet(buf: Bytes)
    ensures Quiet(buf) <==> Parse(buf) == ([], buf)
  {
    ParseLeavesQuiet(buf);
    if Quiet(buf) {
      assert CutFrames(buf) == ([], buf);
    }
  }

  // ----- What the pieces look like -----

  ghost predicate WellCut(piece: Piece) {
    match piece
    case Orphan(text) => text != [] && !BenignPrefix(text)
    case Frame(text) => MarkedAtEnd(text + EOM)
    case Recovered(text) =>
      && NoEom(text) && StartTag(text, 0).Some?
      && NotificationEnd(text, StartTag(text, 0).value) == Some(|text|)
    case Abandoned(text) => NoEom(text) && text != []
    case Guarded(text) => Quiet(text) && text != []
    case Cleared(text) => Quiet(text) && text != []
  }

  ghost predicate AllWellCut(pieces: seq<Piece>) {
    forall i :: 0 <= i < |pieces| ==> WellCut(pieces[i])
  }

  lemma {:induction false} FramesWellCut(buf: Bytes)
    ensures AllWellCut(CutFrames(buf).0)
    decreases |buf|
  {
    hide EOM, Find;
    var eom := Find(buf, EOM, 0);
    if eom.Some? {
      FirstFrameWellCut(buf, eom.value);
      FramesWellCut(buf[eom.value + EOM_LENGTH..]);
    }
  }

  lemma FirstFrameWellCut(buf: Bytes, eom: nat)
    requires Find(buf, EOM, 0) == Some(eom)
    ensures eom + EOM_LENGTH <= |buf| && WellCut(Frame(buf[..eom]))
  {
    hide EOM, Find, OccursAt;
    EomLength();
    SplitAtEom(buf, eom);
    FindInPrefix(buf, EOM, 0, eom + EOM_LENGTH);
    assert buf[..eom + EOM_LENGTH] == buf[..eom] + EOM;
  }

  lemma BrokenWellCut(buf: Bytes)
    requires NoEom(buf) && CutBroken(buf).Some?
    ensures WellCut(CutBroken(buf).value)
  {
    hide EOM, Find, StartTag, NotificationEnd;
    var piece := CutBroken(buf).value;
    FindNoneInPrefix(buf, EOM, |piece.text|);
    if piece.Recovered? {
      var start := StartTag(buf, 0).value;
      NotificationEndInPrefix(buf, start);
      StartTagInPrefix(buf, |piece.text|);
    }
  }

  /** Every piece is cut as its kind says: frames are marked once and at their end, no other queued
      piece contains a marker, and a recovered notification ends with its close tag. */
  lemma {:induction false} ParseCutsWell(buf: Bytes)
    ensures AllWellCut(Parse(buf).0)
    decreases |buf|
  {
    hide WellCut, CutFrames, CutBroken, OrphanLength, EOM;
    var orphan := OrphanLength(buf);
    if buf == [] {
    } else if orphan > 0 {
      ParseCutsWell(buf[orphan..]);
      assert WellCut(Orphan(buf[..orphan])) by { OrphanWellCut(buf); }
    } else {
      var (frames, left) := CutFrames(buf);
      CutFramesConserves(buf);
      FramesWellCut(buf);
      var broken := CutBroken(left);
      if left == [] {
      } else if broken.Some? {
        BrokenWellCut(left);
        ParseCutsWell(left[|broken.value.text|..]);
      } else if frames != [] {
        ParseCutsWell(left);
      }
    }
  }

  lemma OrphanWellCut(buf: Bytes)
    requires OrphanLength(buf) > 0
    ensures WellCut(Orphan(buf[..OrphanLength(buf)]))
  {
  }
}
