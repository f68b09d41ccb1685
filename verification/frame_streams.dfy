/** Streams of marked frames under fragmentation: the exact condition under which every split into reads is cut
    into the frames that were sent. */
module FrameStreams {
  import opened Wrappers
  import opened ByteStrings
  import opened NotificationScan
  import opened NotificationParser
  import opened CleanFrames

  function AsPieces(frames: seq<Bytes>): seq<Piece> {
    seq(|frames|, i requires 0 <= i < |frames| => Frame(frames[i]))
  }

  /** The EOM-terminated concatenation of the frames. */
  function Sent(frames: seq<Bytes>): Bytes {
    WireAll(AsPieces(frames))
  }

  lemma SentCons(frames: seq<Bytes>)
    requires frames != []
    ensures Sent(frames) == Wire(Frame(frames[0])) + Sent(frames[1..])
    ensures AsPieces(frames) == [Frame(frames[0])] + AsPieces(frames[1..])
  {
    hide Wire, WireAll;
    WireAllCons(Frame(frames[0]), AsPieces(frames[1..]));
    assert AsPieces(frames) == [Frame(frames[0])] + AsPieces(frames[1..]);
  }

  lemma SentConcat(a: seq<Bytes>, b: seq<Bytes>)
    ensures Sent(a + b) == Sent(a) + Sent(b)
    ensures AsPieces(a + b) == AsPieces(a) + AsPieces(b)
  {
    hide WireAll;
    WireAllConcat(AsPieces(a), AsPieces(b));
    assert AsPieces(a + b) == AsPieces(a) + AsPieces(b);
  }

  ghost predicate AllMarked(frames: seq<Bytes>) {
    forall i :: 0 <= i < |frames| ==> MarkedAtEnd(Wire(Frame(frames[i])))
  }

  // ----- Whole frames in front of a rest -----

  lemma CutOneFrame(frame: Bytes, x: Bytes)
    requires MarkedAtEnd(Wire(Frame(frame)))
    ensures CutFrames(Wire(Frame(frame)) + x) == ([Frame(frame)] + CutFrames(x).0, CutFrames(x).1)
  {
    hide Find, EOM;
    EomLength();
    var wire := Wire(Frame(frame));
    FindInFront(wire, x, EOM, 0);
    assert (wire + x)[..|frame|] == frame;
    assert (wire + x)[|frame| + EOM_LENGTH..] == x;
  }

  lemma CutNoFrame(rest: Bytes)
    requires NoEom(rest)
    ensures CutFrames(rest) == ([], rest)
  {
  }

  lemma SentNothing()
    ensures Sent([]) == [] && AsPieces([]) == []
  {
  }

  lemma {:induction false} CutFramesOfSent(frames: seq<Bytes>, rest: Bytes)
    requires AllMarked(frames) && NoEom(rest)
    ensures CutFrames(Sent(frames) + rest) == (AsPieces(frames), rest)
    decreases |frames|
  {
    hide Wire, WireAll, MarkedAtEnd, CutFrames, NoEom;
    if frames == [] {
      SentNothing();
      CutNoFrame(rest);
      assert Sent(frames) + rest == rest;
    } else {
      SentCons(frames);
      CutOneFrame(frames[0], Sent(frames[1..]) + rest);
      CutFramesOfSent(frames[1..], rest);
      assert Sent(frames) + rest == Wire(Frame(frames[0])) + (Sent(frames[1..]) + rest);
    }
  }

  lemma QuietCutsNothing(rest: Bytes)
    requires Quiet(rest)
    ensures NoEom(rest) && CutBroken(rest).None?
  {
  }

  lemma EmptyQuiet()
    ensures Quiet([])
  {
  }

  /** Marked frames that are no orphan, followed by anything quiet, parse into those frames, and the rest stays. */
  lemma MarkedParse(frames: seq<Bytes>, rest: Bytes)
    requires AllMarked(frames) && Quiet(rest) && OrphanLength(Sent(frames) + rest) == 0
    ensures Parse(Sent(frames) + rest) == (AsPieces(frames), rest)
  {
    hide Wire, WireAll, MarkedAtEnd, CutFrames, Quiet, OrphanLength;
    ParseIdleExactlyWhenQuiet(rest);
    QuietCutsNothing(rest);
    if frames == [] {
      SentNothing();
      assert Sent(frames) + rest == rest;
    } else {
      SentCons(frames);
      FrameNotEmpty(frames[0]);
      CutFramesOfSent(frames, rest);
      assert AsPieces(frames) + [] == AsPieces(frames);
    }
  }

  lemma FrameNotEmpty(frame: Bytes)
    ensures |Wire(Frame(frame))| > 0
  {
    EomLength();
  }

  // ----- The first start tag of a stream -----

  lemma LastOpensNothing(wire: Bytes, behind: Bytes, q: nat)
    requires MarkedAtEnd(wire) && q < |wire| && OpensTag(wire + behind, q)
    ensures OpensTag(wire, q)
  {
    hide Find;
    var i := |wire| - EOM_LENGTH;
    assert OccursAt(wire, EOM, i);
    assert wire[i + 5] == wire[i..i + |EOM|][5];
  }

  lemma FrontTagStays(wire: Bytes, behind: Bytes, p: nat)
    requires StartTagAt(wire + behind, 0, p) && OpensTag(wire, p) && NameEnd(wire, p + 1) < |wire|
    ensures StartTag(wire, 0).Some?
  {
    hide XmlLocalName, StartTag;
    TagStable(wire, behind, p);
    if InsideEarlierName(wire, 0, p) {
      InsideStays(wire, behind, 0, p);
    }
    assert StartTagAt(wire, 0, p);
  }

  /** A marked frame without start tag hides nothing of what follows it, and shows nothing of its own. */
  lemma BehindTagless(wire: Bytes, y: Bytes)
    requires MarkedAtEnd(wire) && StartTag(wire, 0).None?
    ensures StartTag(wire + y, 0) == ShiftBy(|wire|, StartTag(y, 0))
  {
    hide MarkedAtEnd, StartTag, StartTagAt;
    var all := wire + y;
    StartTagShifts(wire, y);
    var r, t := StartTag(all, 0), StartTag(all, |wire|);
    if r.Some? {
      StartsBehind(wire, y, r.value);
      SameFromBehind(wire, y, r.value);
    }
    if t.Some? {
      AtOrAfter(all, |wire|, t.value);
      SameFromBehind(wire, y, t.value);
    }
  }

  lemma StartsBehind(wire: Bytes, y: Bytes, p: nat)
    requires MarkedAtEnd(wire) && StartTag(wire, 0).None? && StartTagAt(wire + y, 0, p)
    ensures p >= |wire|
  {
    hide MarkedAtEnd, StartTag, NameEnd, OpensTag;
    if p < |wire| {
      StartTagOpens(wire + y, 0, p);
      LastOpensNothing(wire, y, p);
      NamesEndInFrame(wire, p);
      FrontTagStays(wire, y, p);
      assert false;
    }
  }

  /** Seen from behind a marked frame, no name of the frame reaches out of it. */
  lemma SameFromBehind(wire: Bytes, y: Bytes, p: nat)
    requires MarkedAtEnd(wire) && |wire| <= p
    ensures StartTagAt(wire + y, 0, p) <==> StartTagAt(wire + y, |wire|, p)
  {
    hide MarkedAtEnd, NameEnd, OpensTag, InsideEarlierName, NotificationTagAt;
    var all := wire + y;
    if InsideEarlierName(all, 0, p) {
      var q := NameAround(all, 0, p);
      if q < |wire| {
        LastOpensNothing(wire, y, q);
        NamesEndInFrame(wire, q);
        TagStable(wire, y, q);
        assert false;
      } else {
        InsideName(all, |wire|, q, p);
      }
    }
    if InsideEarlierName(all, |wire|, p) {
      var q := NameAround(all, |wire|, p);
      InsideName(all, 0, q, p);
    }
  }

  lemma ShiftTwice(a: nat, b: nat, r: Option<nat>)
    ensures ShiftBy(a, ShiftBy(b, r)) == ShiftBy(a + b, r) && ShiftBy(0, r) == r
  {
  }

  ghost predicate NoTags(frames: seq<Bytes>) {
    forall i :: 0 <= i < |frames| ==> StartTag(Wire(Frame(frames[i])), 0).None?
  }

  lemma {:induction false} StartTagBehindTagless(frames: seq<Bytes>, y: Bytes)
    requires AllMarked(frames) && NoTags(frames)
    ensures StartTag(Sent(frames) + y, 0) == ShiftBy(|Sent(frames)|, StartTag(y, 0))
    decreases |frames|
  {
    hide Wire, MarkedAtEnd, StartTag, Sent, ShiftBy;
    SentNothing();
    if frames == [] {
      assert [] + y == y;
      ShiftTwice(0, 0, StartTag(y, 0));
    } else {
      SentCons(frames);
      var wire, tail := Wire(Frame(frames[0])), Sent(frames[1..]);
      assert wire + tail + y == wire + (tail + y);
      BehindTagless(wire, tail + y);
      StartTagBehindTagless(frames[1..], y);
      ShiftTwice(|wire|, |tail|, StartTag(y, 0));
    }
  }

  lemma NoTagsCons(frames: seq<Bytes>, e: nat)
    requires frames != [] && e < |frames| && NoTags(frames[1..][..e])
    requires StartTag(Wire(Frame(frames[0])), 0).None?
    ensures NoTags(frames[..e + 1])
  {
    hide Wire, StartTag;
    var part := frames[..e + 1];
    forall i | 0 <= i < |part| ensures StartTag(Wire(Frame(part[i])), 0).None? {
      if i > 0 {
        assert part[i] == frames[1..][..e][i - 1];
      }
    }
  }

  /** The first `d` frames have no start tag, and the next one has, unless there is none left. */
  lemma {:induction false} FirstTagged(frames: seq<Bytes>) returns (d: nat)
    ensures d <= |frames| && NoTags(frames[..d])
    ensures d < |frames| ==> StartTag(Wire(Frame(frames[d])), 0).Some?
    decreases |frames|
  {
    hide Wire, StartTag;
    if frames == [] || StartTag(Wire(Frame(frames[0])), 0).Some? {
      d := 0;
    } else {
      hide NoTags;
      var e := FirstTagged(frames[1..]);
      NoTagsCons(frames, e);
      d := e + 1;
    }
  }

  // ----- Positions in a stream -----

  /** After `done` frames, `partial` of the next one has come in. */
  ghost predicate At(frames: seq<Bytes>, done: nat, partial: Bytes) {
    && done <= |frames|
    && if done == |frames| then partial == []
       else |partial| < |Wire(Frame(frames[done]))| && partial == Wire(Frame(frames[done]))[..|partial|]
  }

  /** Every prefix of what was sent is some frames and a part of the next. */
  lemma {:induction false} PrefixOfSent(frames: seq<Bytes>, prefix: Bytes) returns (done: nat, partial: Bytes)
    requires IsPrefix(prefix, Sent(frames))
    ensures At(frames, done, partial) && prefix == Sent(frames[..done]) + partial
    decreases |frames|
  {
    hide Wire, WireAll;
    SentNothing();
    if frames == [] {
      done, partial := 0, [];
    } else {
      SentCons(frames);
      var wire := Wire(Frame(frames[0]));
      if |prefix| < |wire| {
        done, partial := 0, prefix;
        assert frames[..0] == [];
      } else {
        var tail := prefix[|wire|..];
        var d, r := PrefixOfSent(frames[1..], tail);
        done, partial := d + 1, r;
        SentCons(frames[..done]);
        assert frames[..done][1..] == frames[1..][..d];
        assert prefix == wire + tail;
        assert wire + (Sent(frames[1..][..d]) + r) == wire + Sent(frames[1..][..d]) + r;
      }
    }
  }

  lemma SuffixPrefix(a: Bytes, p: Bytes, s: Bytes)
    requires IsPrefix(a + p, a + s)
    ensures IsPrefix(p, s)
  {
    assert (a + p)[|a|..] == p;
    assert (a + s)[..|a + p|][|a|..] == s[..|p|];
  }

  lemma EmptyAt(frames: seq<Bytes>)
    ensures At(frames, 0, [])
  {
    if frames != [] {
      EomLength();
    }
  }

  lemma WholeStreamDone(frames: seq<Bytes>, done: nat, kept: Bytes)
    requires At(frames, done, kept) && Sent(frames) == Sent(frames[..done]) + kept
    ensures done == |frames| && kept == []
  {
    hide Wire, WireAll;
    SentConcat(frames[..done], frames[done..]);
    assert frames == frames[..done] + frames[done..];
    if done < |frames| {
      SentCons(frames[done..]);
      assert false;
    }
  }

  // ----- Every split into reads -----

  function Joined(chunks: seq<Bytes>): Bytes {
    if chunks == [] then [] else Joined(chunks[..|chunks| - 1]) + chunks[|chunks| - 1]
  }

  /** The pieces cut and the bytes kept after the reads came in one by one. */
  ghost function Feed(chunks: seq<Bytes>): (seq<Piece>, Bytes) {
    if chunks == [] then ([], [])
    else
      var (pieces, kept) := Feed(chunks[..|chunks| - 1]);
      var (more, rest) := Parse(kept + chunks[|chunks| - 1]);
      (pieces + more, rest)
  }

  // ----- The exact condition -----

  /** A frame without start tag that gives the parser nothing to cut before its last byte is there. */
  ghost predicate Tagless(frame: Bytes) {
    var wire := Wire(Frame(frame));
    MarkedAtEnd(wire) && StartTag(wire, 0).None? && forall n :: 0 <= n < |wire| ==> Quiet(wire[..n])
  }

  ghost predicate AllTagless(frames: seq<Bytes>) {
    forall i :: 0 <= i < |frames| ==> Tagless(frames[i])
  }

  /** A start tag in the first `n` bytes of frame `m`, read together with the frames from `i` on, makes no orphan
      of them. */
  ghost predicate BenignFrom(frames: seq<Bytes>, i: nat, m: nat, n: nat)
    requires i <= m < |frames| && n <= |Wire(Frame(frames[m]))|
  {
    var tag := StartTag(Wire(Frame(frames[m]))[..n], 0);
    tag.Some? ==> BenignPrefix(Sent(frames[i..m]) + Wire(Frame(frames[m]))[..tag.value])
  }

  /** Each frame is clean or has no start tag, and frames without start tag are no orphans in front of a later one
      that shows a tag, be it for a moment. */
  ghost predicate Harmless(frames: seq<Bytes>) {
    && (forall i :: 0 <= i < |frames| ==> Clean(frames[i]) || Tagless(frames[i]))
    && forall i, m, n :: 0 <= i < m < |frames| && 0 <= n <= |Wire(Frame(frames[m]))| && AllTagless(frames[i..m]) ==>
         BenignFrom(frames, i, m, n)
  }

  ghost predicate Survives(frames: seq<Bytes>) {
    forall chunks :: Joined(chunks) == Sent(frames) ==> Feed(chunks) == (AsPieces(frames), [])
  }

  // ----- Harmless streams survive -----

  lemma HarmlessFrame(frames: seq<Bytes>, i: nat)
    requires Harmless(frames) && i < |frames|
    ensures var wire := Wire(Frame(frames[i]));
      && MarkedAtEnd(wire)
      && (forall n :: 0 <= n < |wire| ==> Quiet(wire[..n]))
      && (StartTag(wire, 0).None? ==> Tagless(frames[i]))
      && (StartTag(wire, 0).Some? ==> BenignPrefix(wire[..StartTag(wire, 0).value]))
  {
    hide Wire, MarkedAtEnd, Quiet, StartTag, BenignPrefix, ShowsNoOther;
    CleanExactlyWhenQuietUntilComplete(frames[i]);
  }

  lemma HarmlessIsMarked(frames: seq<Bytes>)
    requires Harmless(frames)
    ensures AllMarked(frames)
  {
    hide Wire, MarkedAtEnd, Harmless;
    forall i | 0 <= i < |frames| ensures MarkedAtEnd(Wire(Frame(frames[i]))) {
      HarmlessFrame(frames, i);
    }
  }

  lemma HarmlessPartialIsQuiet(frames: seq<Bytes>, done: nat, partial: Bytes)
    requires Harmless(frames) && At(frames, done, partial)
    ensures Quiet(partial)
  {
    hide Wire, Quiet, Harmless;
    if done == |frames| {
      EmptyQuiet();
    } else {
      HarmlessFrame(frames, done);
    }
  }

  /** In every beginning of a frame that is quiet until complete, what precedes a start tag is benign. */
  lemma BeginsBenignly(wire: Bytes, n: nat)
    requires n <= |wire| && forall k :: 0 <= k < |wire| ==> Quiet(wire[..k])
    requires StartTag(wire, 0).Some? ==> BenignPrefix(wire[..StartTag(wire, 0).value])
    ensures var tag := StartTag(wire[..n], 0); tag.Some? ==> BenignPrefix(wire[..tag.value])
  {
    hide StartTag, BenignPrefix, Quiet;
    if n == |wire| {
      assert wire[..n] == wire;
    } else {
      QuietIsBenign(wire[..n]);
      var tag := StartTag(wire[..n], 0);
      assert tag.Some? ==> wire[..n][..tag.value] == wire[..tag.value];
    }
  }

  lemma BenignFromItself(frames: seq<Bytes>, m: nat, n: nat)
    requires m < |frames| && n <= |Wire(Frame(frames[m]))|
    requires var tag := StartTag(Wire(Frame(frames[m]))[..n], 0);
      tag.Some? ==> BenignPrefix(Wire(Frame(frames[m]))[..tag.value])
    ensures BenignFrom(frames, m, m, n)
  {
    hide Wire, Sent, AsPieces, StartTag, BenignPrefix;
    SentNothing();
    assert frames[m..m] == [];
    var wire := Wire(Frame(frames[m]));
    var tag := StartTag(wire[..n], 0);
    assert tag.Some? ==> [] + wire[..tag.value] == wire[..tag.value];
  }

  lemma TaglessSlice(frames: seq<Bytes>, i: nat, m: nat)
    requires Harmless(frames) && i <= m <= |frames| && NoTags(frames[i..m])
    ensures AllTagless(frames[i..m])
  {
    hide Wire, MarkedAtEnd, Quiet, StartTag, BenignPrefix, Tagless, Harmless;
    var part := frames[i..m];
    forall j | 0 <= j < |part| ensures Tagless(part[j]) {
      assert part[j] == frames[i + j];
      HarmlessFrame(frames, i + j);
    }
  }

  /** Frames without start tag from `i` to `m` and the beginning of frame `m` are no orphan. */
  lemma HarmlessBeginning(frames: seq<Bytes>, i: nat, m: nat, n: nat)
    requires Harmless(frames) && i <= m < |frames| && NoTags(frames[i..m]) && n <= |Wire(Frame(frames[m]))|
    ensures BenignFrom(frames, i, m, n)
  {
    hide Wire, MarkedAtEnd, Quiet, StartTag, BenignPrefix, Clean, BenignFrom, Tagless, AllTagless, NoTags;
    if i == m {
      HarmlessFrame(frames, m);
      BeginsBenignly(Wire(Frame(frames[m])), n);
      BenignFromItself(frames, m, n);
    } else {
      TaglessSlice(frames, i, m);
    }
  }

  lemma QuietIsBenign(s: Bytes)
    ensures Quiet(s) && StartTag(s, 0).Some? ==> BenignPrefix(s[..StartTag(s, 0).value])
  {
    hide StartTag, BenignPrefix;
  }

  lemma HarmlessIsNoOrphan(frames: seq<Bytes>, i: nat, m: nat, rest: Bytes)
    requires Harmless(frames) && i <= m && At(frames, m, rest)
    ensures OrphanLength(Sent(frames[i..m]) + rest) == 0
  {
    hide Wire, Sent, AsPieces, At, MarkedAtEnd, Quiet, StartTag, StartTagAt, BenignPrefix, Harmless, NoTags, AllMarked;
    hide OrphanLength, ShiftBy;
    AtFits(frames, m, rest);
    var part := frames[i..m];
    HarmlessIsMarked(frames);
    MarkedSlice(frames, i, m);
    var d := FirstTagged(part);
    assert part[..d] == frames[i..i + d];
    var tail := Sent(part[d..]) + rest;
    SentConcat(part[..d], part[d..]);
    assert part == part[..d] + part[d..];
    assert Sent(part) + rest == Sent(part[..d]) + tail;
    MarkedSlice(frames, i, i + d);
    StartTagBehindTagless(part[..d], tail);
    if i + d == |frames| {
      assert part[d..] == [] && rest == [] by { AtEnd(frames, m, rest); }
      SentNothing();
      NothingStarts(tail);
      NothingShiftsNoOrphan(Sent(part[..d]), tail);
    } else {
      var n := if d < |part| then |Wire(Frame(frames[i + d]))| else |rest|;
      TailStartTag(frames, i, m, d, rest);
      HarmlessBeginning(frames, i, i + d, n);
      PrefixBenign(Sent(part[..d]), tail, Wire(Frame(frames[i + d])), n);
    }
  }

  lemma PrefixBenign(front: Bytes, tail: Bytes, wire: Bytes, n: nat)
    requires StartTag(front + tail, 0) == ShiftBy(|front|, StartTag(tail, 0))
    requires n <= |wire| && IsPrefix(wire[..n], tail) && StartTag(tail, 0) == StartTag(wire[..n], 0)
    requires StartTag(wire[..n], 0).Some? ==> BenignPrefix(front + wire[..StartTag(wire[..n], 0).value])
    ensures OrphanLength(front + tail) == 0
  {
    hide StartTag, BenignPrefix, StartTagAt;
    var tag := StartTag(wire[..n], 0);
    if tag.Some? {
      SamePrefix(front, tail, wire, n, tag.value);
    }
  }

  lemma SamePrefix(front: Bytes, tail: Bytes, wire: Bytes, n: nat, p: nat)
    requires p <= n <= |wire| && IsPrefix(wire[..n], tail)
    ensures |front| + p <= |front + tail| && (front + tail)[..|front| + p] == front + wire[..p]
  {
    assert tail[..p] == tail[..n][..p] == wire[..n][..p] == wire[..p];
  }

  lemma AtEnd(frames: seq<Bytes>, m: nat, rest: Bytes)
    requires At(frames, m, rest) && m == |frames|
    ensures rest == []
  {
  }

  lemma AtFits(frames: seq<Bytes>, m: nat, rest: Bytes)
    requires At(frames, m, rest)
    ensures m <= |frames| && (m < |frames| ==> |rest| <= |Wire(Frame(frames[m]))|)
  {
  }

  lemma NothingShiftsNoOrphan(front: Bytes, tail: Bytes)
    requires StartTag(front + tail, 0) == ShiftBy(|front|, StartTag(tail, 0)) && StartTag(tail, 0).None?
    ensures OrphanLength(front + tail) == 0
  {
    hide StartTag;
  }

  lemma NothingStarts(s: Bytes)
    requires s == []
    ensures StartTag(s, 0).None?
  {
  }

  lemma MarkedSlice(frames: seq<Bytes>, i: nat, m: nat)
    requires AllMarked(frames) && i <= m <= |frames|
    ensures AllMarked(frames[i..m])
  {
    hide Wire, MarkedAtEnd;
  }

  /** What comes behind the frames without start tag begins with frame `i + d`, whole or in part, and has its
      start tag. */
  lemma TailStartTag(frames: seq<Bytes>, i: nat, m: nat, d: nat, rest: Bytes)
    requires AllMarked(frames) && i + d <= m && At(frames, m, rest) && i + d < |frames|
    requires i + d < m ==> StartTag(Wire(Frame(frames[i + d])), 0).Some?
    ensures var wire := Wire(Frame(frames[i + d]));
      var n := if i + d < m then |wire| else |rest|;
      var tail := Sent(frames[i..m][d..]) + rest;
      n <= |wire| && IsPrefix(wire[..n], tail) && StartTag(tail, 0) == StartTag(wire[..n], 0)
  {
    hide Wire, WireAll, MarkedAtEnd, StartTag, StartTagAt, NameEnd;
    var wire := Wire(Frame(frames[i + d]));
    var left := frames[i..m][d..];
    assert left == frames[i + d..m];
    if i + d < m {
      SentCons(left);
      var tail := Sent(left) + rest;
      assert tail == wire + (Sent(left[1..]) + rest);
      assert wire[..|wire|] == wire;
      StartTagOpens(wire, 0, StartTag(wire, 0).value);
      NamesEndInFrame(wire, StartTag(wire, 0).value);
      StartTagStable(wire, Sent(left[1..]) + rest, 0);
    } else {
      SentNothing();
      assert Sent(left) + rest == rest == wire[..|rest|];
      assert wire[..|rest|] == rest[..|rest|];
    }
  }

  /** From one position of a harmless stream to a later one: exactly the frames in between are cut. */
  lemma HarmlessAdvance(frames: seq<Bytes>, done: nat, partial: Bytes, more: Bytes)
    returns (done': nat, partial': Bytes)
    requires Harmless(frames) && At(frames, done, partial)
    requires IsPrefix(Sent(frames[..done]) + partial + more, Sent(frames))
    ensures done <= done' && At(frames, done', partial')
    ensures Sent(frames[..done']) + partial' == Sent(frames[..done]) + partial + more
    ensures Parse(partial + more) == (AsPieces(frames[done..done']), partial')
  {
    hide Wire, WireAll, Harmless, Parse, Quiet, AsPieces, OrphanLength, AllMarked;
    var tail := frames[done..];
    SentConcat(frames[..done], tail);
    assert frames == frames[..done] + tail;
    var before := Sent(frames[..done]);
    assert before + partial + more == before + (partial + more);
    SuffixPrefix(before, partial + more, Sent(tail));
    var d, r := PrefixOfSent(tail, partial + more);
    done', partial' := done + d, r;
    HarmlessPartialIsQuiet(frames, done', partial');
    HarmlessIsNoOrphan(frames, done, done', partial');
    assert tail[..d] == frames[done..done'];
    HarmlessIsMarked(frames);
    MarkedSlice(frames, done, done');
    MarkedParse(frames[done..done'], r);
    SentConcat(frames[..done], frames[done..done']);
    assert frames[..done'] == frames[..done] + frames[done..done'];
  }

  lemma {:induction false} FeedHarmless(frames: seq<Bytes>, chunks: seq<Bytes>) returns (done: nat)
    requires Harmless(frames) && IsPrefix(Joined(chunks), Sent(frames))
    ensures var (pieces, kept) := Feed(chunks);
      && At(frames, done, kept) && pieces == AsPieces(frames[..done])
      && Joined(chunks) == Sent(frames[..done]) + kept
    decreases |chunks|
  {
    hide Wire, WireAll, Harmless, Parse;
    SentNothing();
    if chunks == [] {
      assert frames[..0] == [];
      done := 0;
      EmptyAt(frames);
    } else {
      var n := |chunks| - 1;
      var before := FeedHarmless(frames, chunks[..n]);
      var kept := Feed(chunks[..n]).1;
      var rest;
      done, rest := HarmlessAdvance(frames, before, kept, chunks[n]);
      SentConcat(frames[..before], frames[before..done]);
      assert frames[..done] == frames[..before] + frames[before..done];
    }
  }

  lemma HarmlessSurvives(frames: seq<Bytes>)
    requires Harmless(frames)
    ensures Survives(frames)
  {
    hide Harmless, Feed, Wire, WireAll;
    forall chunks | Joined(chunks) == Sent(frames) ensures Feed(chunks) == (AsPieces(frames), []) {
      var done := FeedHarmless(frames, chunks);
      WholeStreamDone(frames, done, Feed(chunks).1);
      assert frames[..done] == frames;
    }
  }

  // ----- And only they do -----

  lemma NothingIsBenign(s: Bytes)
    requires s == []
    ensures BenignPrefix(s)
  {
  }

  lemma FeedOne(chunk: Bytes)
    ensures Joined([chunk]) == chunk && Feed([chunk]) == Parse(chunk)
  {
    hide Parse;
    assert [chunk][..0] == [];
    assert [] + chunk == chunk;
    assert [] + Parse(chunk).0 == Parse(chunk).0;
  }

  lemma FeedPush(chunks: seq<Bytes>, chunk: Bytes)
    ensures Joined(chunks + [chunk]) == Joined(chunks) + chunk
    ensures var (pieces, kept) := Feed(chunks);
      Feed(chunks + [chunk]) == (pieces + Parse(kept + chunk).0, Parse(kept + chunk).1)
  {
    hide Parse;
    assert (chunks + [chunk])[..|chunks|] == chunks;
  }

  lemma AtIsPrefix(frames: seq<Bytes>, i: nat, partial: Bytes) returns (z: Bytes)
    requires At(frames, i, partial)
    ensures Sent(frames[..i]) + partial + z == Sent(frames)
  {
    hide Wire, WireAll;
    var front, back := frames[..i], frames[i..];
    SentConcat(front, back);
    assert frames == front + back;
    if back == [] {
      SentNothing();
      z := [];
      assert Sent(front) + partial + z == Sent(front) + [];
    } else {
      SentCons(back);
      var wire := Wire(Frame(frames[i]));
      z := wire[|partial|..] + Sent(back[1..]);
      assert wire == partial + wire[|partial|..];
      assert Sent(front) + partial + z == Sent(front) + (partial + wire[|partial|..] + Sent(back[1..]));
    }
  }

  /** A stream of marked frames can be split in one way only into frames and a rest without marker. */
  lemma SamePosition(frames: seq<Bytes>, m: nat, kept: Bytes, i: nat, partial: Bytes)
    requires AllMarked(frames) && m <= |frames| && At(frames, i, partial) && NoEom(kept)
    requires Sent(frames[..m]) + kept == Sent(frames[..i]) + partial
    ensures m == i && kept == partial
  {
    hide Wire, WireAll, MarkedAtEnd, NoEom;
    if m > i {
      SentConcat(frames[..i], frames[i..m]);
      assert frames[..m] == frames[..i] + frames[i..m];
      SentCons(frames[i..m]);
      assert false;
    } else if m < i {
      SentConcat(frames[..m], frames[m..i]);
      assert frames[..i] == frames[..m] + frames[m..i];
      SentCons(frames[m..i]);
      var wire, behind := Wire(Frame(frames[m])), Sent(frames[m..i][1..]) + partial;
      assert Sent(frames[..m]) + kept == Sent(frames[..m]) + (wire + behind);
      SameBehind(Sent(frames[..m]), kept, wire + behind);
      MarkedShows(wire, behind);
      assert false;
    } else {
      SameBehind(Sent(frames[..m]), kept, partial);
    }
  }

  lemma SameBehind(a: Bytes, x: Bytes, y: Bytes)
    requires a + x == a + y
    ensures x == y
  {
    assert (a + x)[|a|..] == x && (a + y)[|a|..] == y;
  }

  lemma MarkedShows(wire: Bytes, x: Bytes)
    requires MarkedAtEnd(wire)
    ensures !NoEom(wire + x)
  {
    hide Find, EOM;
    FindInFront(wire, x, EOM, 0);
  }

  lemma SurvivorIsMarked(frames: seq<Bytes>)
    requires Survives(frames)
    ensures AllMarked(frames)
  {
    hide Feed, Parse, Wire, WireAll, MarkedAtEnd;
    FeedOne(Sent(frames));
    ParseCutsWell(Sent(frames));
    forall i | 0 <= i < |frames| ensures MarkedAtEnd(Wire(Frame(frames[i]))) {
      assert WellCut(AsPieces(frames)[i]);
      FrameIsMarked(frames[i]);
    }
  }

  lemma FrameIsMarked(frame: Bytes)
    requires WellCut(Frame(frame))
    ensures MarkedAtEnd(Wire(Frame(frame)))
  {
    hide MarkedAtEnd;
  }

  lemma PiecesInFront(frames: seq<Bytes>, pieces: seq<Piece>, more: seq<Piece>)
    requires pieces + more == AsPieces(frames)
    ensures |pieces| <= |frames| && pieces == AsPieces(frames[..|pieces|])
  {
    assert pieces == AsPieces(frames)[..|pieces|];
  }

  /** A first read that ends inside a frame leaves the part of it, and cuts what was complete. */
  lemma SurvivorFirstRead(frames: seq<Bytes>, i: nat, partial: Bytes)
    requires Survives(frames) && At(frames, i, partial)
    ensures Parse(Sent(frames[..i]) + partial) == (AsPieces(frames[..i]), partial) && Quiet(partial)
  {
    hide Feed, Parse, Wire, WireAll, Quiet, At, AllMarked, Joined;
    SurvivorIsMarked(frames);
    AtFits(frames, i, partial);
    var x := Sent(frames[..i]) + partial;
    var z := AtIsPrefix(frames, i, partial);
    FeedOne(x);
    FeedPush([x], z);
    assert Feed([x] + [z]) == (AsPieces(frames), []);
    PiecesInFront(frames, Parse(x).0, Parse(Parse(x).1 + z).0);
    ParseConserves(x);
    ParseLeavesQuiet(x);
    QuietCutsNothing(Parse(x).1);
    SamePosition(frames, |Parse(x).0|, Parse(x).1, i, partial);
  }

  lemma NameEndsBeforeLast(wire: Bytes, p: nat)
    requires MarkedAtEnd(wire) && OpensTag(wire, p)
    ensures NameEnd(wire, p + 1) < |wire| - 1
  {
    hide MarkedAtEnd, NameEnd;
    MarkerShows(wire);
  }

  lemma MarkerShows(wire: Bytes)
    requires MarkedAtEnd(wire)
    ensures |wire| >= 6 && wire[|wire| - 4] == '>'
    ensures forall j :: |wire| - 6 <= j < |wire| ==> wire[j] != '<'
  {
    hide Find, EOM;
    var i := |wire| - EOM_LENGTH;
    EomText();
    assert wire[i..] == EOM;
    forall j | i <= j < |wire| ensures wire[j] == EOM[j - i] {
      assert wire[j] == wire[i..][j - i];
    }
  }

  lemma EomText()
    ensures |EOM| == EOM_LENGTH == 6 && EOM[2] == '>' && forall j :: 0 <= j < 6 ==> EOM[j] != '<'
  {
  }

  lemma SurvivorFrame(frames: seq<Bytes>, i: nat)
    requires Survives(frames) && i < |frames|
    ensures Clean(frames[i]) || Tagless(frames[i])
  {
    hide Wire, StartTag, StartTagAt, MarkedAtEnd, Quiet, BenignPrefix, Survives, NameEnd, OpensTag, Clean, Parse;
    var wire := Wire(Frame(frames[i]));
    SurvivorIsMarked(frames);
    forall n | 0 <= n < |wire| ensures Quiet(wire[..n]) {
      SurvivorFirstRead(frames, i, wire[..n]);
    }
    if StartTag(wire, 0).Some? {
      var start, t := StartTag(wire, 0).value, wire[..|wire| - 1];
      StartTagOpens(wire, 0, start);
      NameEndsBeforeLast(wire, start);
      StartTagInPrefix(wire, |wire| - 1);
      QuietIsBenign(t);
      assert t[..start] == wire[..start];
      CleanExactlyWhenQuietUntilComplete(frames[i]);
    }
  }

  lemma SurvivorBenign(frames: seq<Bytes>, i: nat, m: nat, n: nat)
    requires Survives(frames) && i < m < |frames| && n <= |Wire(Frame(frames[m]))| && AllTagless(frames[i..m])
    ensures BenignFrom(frames, i, m, n)
  {
    hide Wire, StartTag, StartTagAt, MarkedAtEnd, BenignPrefix, Survives, Parse, WireAll, OrphanLength, ShiftBy;
    var wire := Wire(Frame(frames[m]));
    var tag := StartTag(wire[..n], 0);
    if tag.Some? {
      var front := Sent(frames[i..m]);
      SurvivorMiddleRead(frames, i, m, n);
      TaglessIsMarked(frames[i..m]);
      StartTagBehindTagless(frames[i..m], wire[..n]);
      FirstPieceIsNoOrphan(front + wire[..n]);
      SamePrefix(front, wire[..n], wire, n, tag.value);
      NoOrphanIsBenign(front, wire[..n], tag.value);
    }
  }

  lemma NoOrphanIsBenign(front: Bytes, tail: Bytes, p: nat)
    requires OrphanLength(front + tail) == 0 && StartTag(front + tail, 0) == ShiftBy(|front|, Some(p)) && p <= |tail|
    ensures BenignPrefix((front + tail)[..|front| + p])
  {
    hide StartTag, BenignPrefix;
    if |front| + p == 0 {
      NothingIsBenign((front + tail)[..0]);
    }
  }

  lemma TaglessIsMarked(frames: seq<Bytes>)
    requires AllTagless(frames)
    ensures AllMarked(frames) && NoTags(frames)
  {
    hide Wire, StartTag, MarkedAtEnd, Quiet;
  }

  lemma FirstPieceIsNoOrphan(stream: Bytes)
    requires Parse(stream).0 == [] || Parse(stream).0[0].Frame?
    ensures OrphanLength(stream) == 0
  {
    hide OrphanLength, CutFrames, CutBroken;
  }

  /** A read from a frame boundary to somewhere in a later frame cuts no orphan. */
  lemma SurvivorMiddleRead(frames: seq<Bytes>, i: nat, m: nat, n: nat)
    requires Survives(frames) && i < m < |frames| && n <= |Wire(Frame(frames[m]))|
    ensures var pieces := Parse(Sent(frames[i..m]) + Wire(Frame(frames[m]))[..n]).0;
      pieces == [] || pieces[0].Frame?
  {
    hide Wire, WireAll, Parse, Feed, Joined, At, Quiet;
    var x, y := Sent(frames[..i]), Sent(frames[i..m]) + Wire(Frame(frames[m]))[..n];
    BoundaryAt(frames, i);
    SurvivorFirstRead(frames, i, []);
    assert x + [] == x && [] + y == y;
    var z := ReadOn(frames, i, m, n);
    FeedOne(x);
    FeedPush([x], y);
    FeedPush([x] + [y], z);
    assert Feed([x] + [y] + [z]) == (AsPieces(frames), []);
    var more := Parse(Parse(y).1 + z).0;
    assert AsPieces(frames[..i]) + Parse(y).0 + more == AsPieces(frames);
    if Parse(y).0 != [] {
      FirstOf(AsPieces(frames[..i]), Parse(y).0, more);
    }
  }

  lemma FirstOf(a: seq<Piece>, b: seq<Piece>, c: seq<Piece>)
    requires b != []
    ensures |a| < |a + b + c| && (a + b + c)[|a|] == b[0]
  {
  }

  lemma BoundaryAt(frames: seq<Bytes>, i: nat)
    requires i <= |frames|
    ensures At(frames, i, [])
  {
    hide Wire;
    if i < |frames| {
      FrameNotEmpty(frames[i]);
    }
  }

  lemma ReadOn(frames: seq<Bytes>, i: nat, m: nat, n: nat) returns (z: Bytes)
    requires i <= m < |frames| && n <= |Wire(Frame(frames[m]))|
    ensures Sent(frames[..i]) + (Sent(frames[i..m]) + Wire(Frame(frames[m]))[..n]) + z == Sent(frames)
  {
    hide Wire, WireAll;
    var wire := Wire(Frame(frames[m]));
    BoundaryAt(frames, m);
    SentConcat(frames[..i], frames[i..m]);
    assert frames[..m] == frames[..i] + frames[i..m];
    SentConcat(frames[..m], frames[m..]);
    assert frames == frames[..m] + frames[m..];
    SentCons(frames[m..]);
    var a, b, c := Sent(frames[..i]), Sent(frames[i..m]), Sent(frames[m..][1..]);
    z := wire[n..] + c;
    assert wire == wire[..n] + wire[n..];
    assert a + (b + wire[..n]) + z == (a + b) + ((wire[..n] + wire[n..]) + c);
  }

  /** A stream is cut into its frames under every fragmentation exactly when it is harmless. */
  lemma HarmlessExactlyWhenFragmentationDoesNotMatter(frames: seq<Bytes>)
    ensures Harmless(frames) <==> Survives(frames)
  {
    hide Wire, Clean, Tagless, AllTagless, BenignFrom, Survives;
    if Harmless(frames) {
      HarmlessSurvives(frames);
    }
    if Survives(frames) {
      forall i | 0 <= i < |frames| ensures Clean(frames[i]) || Tagless(frames[i]) {
        SurvivorFrame(frames, i);
      }
      forall i, m, n | 0 <= i < m < |frames| && 0 <= n <= |Wire(Frame(frames[m]))| && AllTagless(frames[i..m])
        ensures BenignFrom(frames, i, m, n)
      {
        SurvivorBenign(frames, i, m, n);
      }
    }
  }
}
