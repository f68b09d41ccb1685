/** Clean streams under fragmentation, and the frames that spoil them. */
module CleanStreams {
  import opened Wrappers
  import opened ByteStrings
  import opened NotificationScan
  import opened NotificationParser
  import opened CleanFrames
  import opened FrameStreams

  ghost predicate AllClean(frames: seq<Bytes>) {
    forall i :: 0 <= i < |frames| ==> Clean(frames[i])
  }

  lemma CleanHasTag(frame: Bytes)
    requires Clean(frame)
    ensures !Tagless(frame) && MarkedAtEnd(Wire(Frame(frame)))
  {
    hide Wire, StartTag, MarkedAtEnd, Quiet, BenignPrefix, ShowsNoOther;
  }

  lemma AllCleanIsHarmless(frames: seq<Bytes>)
    requires AllClean(frames)
    ensures Harmless(frames)
  {
    hide Wire, Clean, Tagless, BenignFrom;
    forall i, m | 0 <= i < m < |frames| ensures !AllTagless(frames[i..m]) {
      assert frames[i..m][0] == frames[i];
      CleanHasTag(frames[i]);
    }
  }

  lemma CleanFrameIsNoOrphan(frame: Bytes, x: Bytes)
    requires Clean(frame)
    ensures OrphanLength(Wire(Frame(frame)) + x) == 0
  {
    hide Wire, MarkedAtEnd, BenignPrefix, NotificationTagAt, NameEnd, StartTag, ShowsNoOther;
    var wire := Wire(Frame(frame));
    var start := StartTag(wire, 0).value;
    NamesEndInFrame(wire, start) by { assert StartTagAt(wire, 0, start); StartTagOpens(wire, 0, start); }
    StartTagStable(wire, x, 0);
    assert (wire + x)[..start] == wire[..start];
  }

  /** Clean frames followed by anything quiet parse into those frames, and the rest stays. */
  lemma CleanParse(frames: seq<Bytes>, rest: Bytes)
    requires AllClean(frames) && Quiet(rest)
    ensures Parse(Sent(frames) + rest) == (AsPieces(frames), rest)
  {
    hide Wire, WireAll, Clean, Quiet, MarkedAtEnd, Parse, OrphanLength;
    forall i | 0 <= i < |frames| ensures MarkedAtEnd(Wire(Frame(frames[i]))) {
      CleanHasTag(frames[i]);
    }
    if frames == [] {
      SentNothing();
      assert Sent(frames) + rest == rest;
      QuietIsNoOrphan(rest);
    } else {
      SentCons(frames);
      CleanFrameIsNoOrphan(frames[0], Sent(frames[1..]) + rest);
      assert Sent(frames) + rest == Wire(Frame(frames[0])) + (Sent(frames[1..]) + rest);
    }
    MarkedParse(frames, rest);
  }

  lemma QuietIsNoOrphan(rest: Bytes)
    requires Quiet(rest)
    ensures OrphanLength(rest) == 0
  {
    hide StartTag, BenignPrefix;
  }

  /** From one position of a clean stream to a later one: exactly the frames in between are cut. */
  lemma CleanAdvance(frames: seq<Bytes>, done: nat, partial: Bytes, more: Bytes) returns (done': nat, partial': Bytes)
    requires AllClean(frames) && At(frames, done, partial)
    requires IsPrefix(Sent(frames[..done]) + partial + more, Sent(frames))
    ensures done <= done' && At(frames, done', partial')
    ensures Sent(frames[..done']) + partial' == Sent(frames[..done]) + partial + more
    ensures Parse(partial + more) == (AsPieces(frames[done..done']), partial')
  {
    hide *;
    AllCleanIsHarmless(frames);
    done', partial' := HarmlessAdvance(frames, done, partial, more);
  }

  /** Fragmentation does not matter: however the clean frames sent are split into reads, exactly
      those frames are cut, in order, and the buffer ends empty. */
  lemma FragmentationDoesNotMatter(frames: seq<Bytes>, chunks: seq<Bytes>)
    requires AllClean(frames) && Joined(chunks) == Sent(frames)
    ensures Feed(chunks) == (AsPieces(frames), [])
  {
    hide AllClean, Harmless, Feed, Sent, AsPieces, Joined;
    AllCleanIsHarmless(frames);
    HarmlessSurvives(frames);
  }

  /** One frame alone is cut as itself under every fragmentation exactly when it is clean or, until its last
      byte is there, has no start tag and nothing else to cut. */
  lemma AloneExactlyWhenCleanOrTagless(frame: Bytes)
    ensures Survives([frame]) <==> Clean(frame) || Tagless(frame)
  {
    hide Clean, Tagless, Survives, BenignFrom, AllTagless, Wire;
    HarmlessExactlyWhenFragmentationDoesNotMatter([frame]);
    assert [frame][0] == frame;
  }

  /** A frame is cut as itself under every fragmentation in front of a clean notification that starts at once
      exactly when it is clean. */
  lemma CleanExactlyWhenFragmentationDoesNotMatter(frame: Bytes, next: Bytes)
    requires Clean(next) && StartTag(Wire(Frame(next)), 0) == Some(0)
    ensures Clean(frame) <==> Survives([frame, next])
  {
    hide Clean, Tagless, Survives, Wire, StartTag, Harmless;
    var frames := [frame, next];
    HarmlessExactlyWhenFragmentationDoesNotMatter(frames);
    if Clean(frame) {
      AllCleanIsHarmless(frames);
    } else if Harmless(frames) {
      TaglessBeforeTag(frame, next);
      assert false;
    }
  }

  lemma TaglessBeforeTag(frame: Bytes, next: Bytes)
    requires Harmless([frame, next]) && StartTag(Wire(Frame(next)), 0) == Some(0)
    ensures Clean(frame)
  {
    hide Clean, Tagless, Wire, StartTag, BenignPrefix, MarkedAtEnd, WireAll;
    var frames, wire := [frame, next], Wire(Frame(next));
    assert frames[0] == frame;
    if !Clean(frame) {
      TaglessMarked(frame);
      assert frames[0..1] == [frame];
      assert BenignFrom(frames, 0, 1, |wire|);
      assert wire[..|wire|] == wire && wire[..0] == [];
      SentOne(frame);
      assert Sent(frames[0..1]) + wire[..0] == Wire(Frame(frame));
      MarkedIsNotBenign(Wire(Frame(frame)));
      assert false;
    }
  }

  lemma TaglessMarked(frame: Bytes)
    requires Tagless(frame)
    ensures MarkedAtEnd(Wire(Frame(frame)))
  {
    hide Wire, MarkedAtEnd, Quiet, StartTag;
  }

  lemma SentOne(frame: Bytes)
    ensures Sent([frame]) == Wire(Frame(frame)) && AsPieces([frame]) == [Frame(frame)]
  {
    hide Wire, WireAll;
    SentCons([frame]);
    SentNothing();
  }

  lemma SentTwo(frame: Bytes, next: Bytes)
    ensures Sent([frame, next]) == Wire(Frame(frame)) + Wire(Frame(next))
    ensures AsPieces([frame, next]) == [Frame(frame), Frame(next)]
  {
    hide Wire, WireAll;
    SentCons([frame, next]);
    SentCons([next]);
    SentNothing();
  }

  /** Not even for a moment does the frame show a start tag. */
  ghost predicate Silent(frame: Bytes) {
    forall n :: 0 <= n <= |Wire(Frame(frame))| ==> StartTag(Wire(Frame(frame))[..n], 0).None?
  }

  /** Clean frames, one without start tag, and others behind it that show none at all are harmless. */
  lemma CleanThenSilentIsHarmless(frames: seq<Bytes>, j: nat)
    requires j <= |frames| && AllClean(frames[..j]) && AllTagless(frames[j..])
    requires forall i :: j < i < |frames| ==> Silent(frames[i])
    ensures Harmless(frames)
  {
    hide Clean, Tagless, Wire, StartTag, BenignPrefix;
    assert forall i :: 0 <= i < j ==> frames[i] == frames[..j][i];
    assert forall i :: j <= i < |frames| ==> frames[i] == frames[j..][i - j];
    forall i, m, n | 0 <= i < m < |frames| && 0 <= n <= |Wire(Frame(frames[m]))| && AllTagless(frames[i..m])
      ensures BenignFrom(frames, i, m, n)
    {
      assert frames[i..m][0] == frames[i];
      if i < j {
        CleanHasTag(frames[i]);
        assert false;
      }
    }
  }

  /** No marked frame is a benign prefix: its marker stands behind any XML declaration. */
  lemma MarkedIsNotBenign(wire: Bytes)
    requires MarkedAtEnd(wire)
    ensures !BenignPrefix(wire)
  {
    hide Find, TrimCopy, Blank, IsSpace;
    var before, after := TrimCopySplits(wire);
    var trimmed := TrimCopy(wire);
    EndsInMarker(wire);
    LastIsKept(wire, before, trimmed, after);
    if IsPrefix("<?xml", trimmed) && Find(trimmed, "?>", 0).Some? {
      var endDecl := Find(trimmed, "?>", 0).value;
      DeclEndsBeforeMarker(trimmed, endDecl);
      var rest := trimmed[endDecl + 2..];
      NotBlank(rest);
      TrimsToNothing(rest);
    }
  }

  lemma EndsInMarker(wire: Bytes)
    requires MarkedAtEnd(wire)
    ensures |wire| >= 2 && wire[|wire| - 1] == '>' && wire[|wire| - 2] == ']'
  {
    hide Find;
    var i := |wire| - EOM_LENGTH;
    assert OccursAt(wire, EOM, i);
    assert wire[i + 5] == wire[i..i + |EOM|][5];
    assert wire[i + 4] == wire[i..i + |EOM|][4];
  }

  lemma LastIsKept(wire: Bytes, before: Bytes, trimmed: Bytes, after: Bytes)
    requires wire == before + trimmed + after && Blank(before) && Blank(after)
    requires |wire| >= 2 && wire[|wire| - 1] == '>' && wire[|wire| - 2] == ']'
    ensures |trimmed| >= 2 && trimmed[|trimmed| - 1] == '>' && trimmed[|trimmed| - 2] == ']'
  {
    BlankOutside(wire, before, trimmed, after);
  }

  lemma DeclEndsBeforeMarker(trimmed: Bytes, endDecl: nat)
    requires |trimmed| >= 2 && trimmed[|trimmed| - 1] == '>' && trimmed[|trimmed| - 2] == ']'
    requires OccursAt(trimmed, "?>", endDecl)
    ensures endDecl + 2 < |trimmed|
  {
    assert trimmed[endDecl..endDecl + 2][0] == '?';
  }

  lemma NotBlank(rest: Bytes)
    requires rest != [] && rest[|rest| - 1] == '>'
    ensures !Blank(rest)
  {
  }

  /** Where it does matter: a marked frame without start tag is a frame if it comes alone, but an orphan,
      marker and all, if a notification that starts at once comes in the same read. */
  lemma FragmentationMattersWithoutStartTag(frame: Bytes, behind: Bytes)
    requires MarkedAtEnd(Wire(Frame(frame))) && StartTag(Wire(Frame(frame)), 0).None?
    requires StartTag(behind, 0) == Some(0)
    ensures Parse(Wire(Frame(frame))) == ([Frame(frame)], [])
    ensures var together := Parse(Wire(Frame(frame)) + behind).0;
      together != [] && together[0] == Orphan(Wire(Frame(frame)))
  {
    hide MarkedAtEnd, StartTag, Wire, Find, BenignPrefix, CutFrames, CutBroken;
    var wire := Wire(Frame(frame));
    EndsInMarker(wire);
    LoneFrameIsCut(frame);
    BehindTagless(wire, behind);
    MarkedIsNotBenign(wire);
    assert (wire + behind)[..|wire|] == wire;
  }

  /** A marked frame that is no orphan is cut as a frame if it is read in one piece. */
  lemma LoneFrameIsCut(frame: Bytes)
    requires MarkedAtEnd(Wire(Frame(frame))) && OrphanLength(Wire(Frame(frame))) == 0
    ensures Parse(Wire(Frame(frame))) == ([Frame(frame)], [])
  {
    hide MarkedAtEnd, Wire, CutFrames, CutBroken, OrphanLength, NoEom;
    var wire := Wire(Frame(frame));
    EndsInMarker(wire);
    CutOneFrame(frame, []);
    EmptyQuiet();
    QuietCutsNothing([]);
    CutNoFrame([]);
    assert wire + [] == wire && [Frame(frame)] + [] == [Frame(frame)];
  }

  /** So a well-framed notification that is not clean is fine in one piece, and some other first read makes
      the parser cut it early. */
  lemma CutEarlyExactlyWhenNotClean(frame: Bytes)
    requires WellFramed(frame)
    ensures Parse(Wire(Frame(frame))) == ([Frame(frame)], [])
    ensures var wire := Wire(Frame(frame));
      Clean(frame) <==> forall n :: 0 <= n < |wire| ==> Parse(wire[..n]) == ([], wire[..n])
  {
    hide Parse, Wire, Clean, Quiet, StartTag, MarkedAtEnd, BenignPrefix;
    LoneFrameIsCut(frame);
    CleanExactlyWhenQuietUntilComplete(frame);
    var wire := Wire(Frame(frame));
    forall n | 0 <= n < |wire| ensures Quiet(wire[..n]) <==> Parse(wire[..n]) == ([], wire[..n]) {
      ParseIdleExactlyWhenQuiet(wire[..n]);
    }
  }
}
