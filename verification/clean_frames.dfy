/** Which frames are clean, read off their text, and what that means for the parser: a clean frame gives it
    nothing to cut before its last byte is there. */
module CleanFrames {
  import opened Wrappers
  import opened ByteStrings
  import opened NotificationScan
  import opened NotificationParser

  /** With its name read up to `k`, the tag opened at `p` passes for a notification. */
  predicate PassesAt(data: Bytes, p: nat, k: nat) {
    OpensTag(data, p) && p + 1 <= k <= NameEnd(data, p + 1) && XmlLocalName(data[p + 1..k]) == NOTIFICATION
  }

  /** It does so at some moment while its name comes in. */
  ghost predicate ShowsNotification(data: Bytes, p: nat) {
    exists k :: PassesAt(data, p, k)
  }

  /** No tag other than the one at `start` ever passes for a notification, unless it stands inside the name of
      another tag: any tag for what precedes `start`, one behind `start` for what follows it. */
  ghost predicate ShowsNoOther(data: Bytes, start: nat) {
    forall p: nat :: p != start && ShowsNotification(data, p) ==>
      InsideEarlierName(data, if p < start then 0 else start + 1, p)
  }

  /** The EOM comes first at the end of the frame, and its start tag has a benign prefix. */
  ghost predicate WellFramed(frame: Bytes) {
    var wire := Wire(Frame(frame));
    && MarkedAtEnd(wire)
    && StartTag(wire, 0).Some? && BenignPrefix(wire[..StartTag(wire, 0).value])
  }

  /** And no other tag shows a notification. */
  ghost predicate Clean(frame: Bytes) {
    WellFramed(frame) && ShowsNoOther(Wire(Frame(frame)), StartTag(Wire(Frame(frame)), 0).value)
  }

  // ----- Marked frames -----

  lemma EndsNameAtLast(wire: Bytes)
    requires MarkedAtEnd(wire)
    ensures EndsName(wire[|wire| - 1])
  {
    hide Find;
    var i := |wire| - EOM_LENGTH;
    assert OccursAt(wire, EOM, i);
    assert wire[i + 5] == wire[i..i + |EOM|][5];
  }

  /** In a marked frame every tag name is terminated. */
  lemma NamesEndInFrame(wire: Bytes, p: nat)
    requires MarkedAtEnd(wire) && OpensTag(wire, p)
    ensures NameEnd(wire, p + 1) < |wire|
  {
    hide Find, MarkedAtEnd, NameEnd, EndsName;
    EndsNameAtLast(wire);
  }

  lemma StartTagOpens(data: Bytes, from: nat, p: nat)
    requires StartTagAt(data, from, p)
    ensures OpensTag(data, p)
  {
  }

  lemma MarkedHasNoEarlierEom(wire: Bytes, k: nat)
    requires MarkedAtEnd(wire) && k < |wire|
    ensures NoEom(wire[..k])
  {
    hide Find, EOM;
    EomLength();
    assert wire == wire[..k] + wire[k..];
    if Find(wire[..k], EOM, 0).Some? {
      FindInFront(wire[..k], wire[k..], EOM, 0);
    }
  }

  // ----- Truncations -----

  lemma TruncatedTag(data: Bytes, n: nat, p: nat)
    requires n <= |data| && p + 1 < n
    ensures OpensTag(data[..n], p) <==> OpensTag(data, p)
    ensures NameEnd(data[..n], p + 1) == if NameEnd(data, p + 1) < n then NameEnd(data, p + 1) else n
  {
    NameEndUnique(data[..n], p + 1, if NameEnd(data, p + 1) < n then NameEnd(data, p + 1) else n);
  }

  lemma TruncatedInside(data: Bytes, n: nat, from: nat, p: nat)
    requires p < n <= |data|
    ensures InsideEarlierName(data[..n], from, p) <==> InsideEarlierName(data, from, p)
  {
    hide OpensTag, NameEnd;
    forall q: nat | q < p
      ensures OpensTag(data[..n], q) <==> OpensTag(data, q)
      ensures p < NameEnd(data[..n], q + 1) <==> p < NameEnd(data, q + 1)
    {
      TruncatedTag(data, n, q);
    }
    if InsideEarlierName(data[..n], from, p) {
      var q: nat :| from <= q < p && OpensTag(data[..n], q) && p < NameEnd(data[..n], q + 1);
      assert OpensTag(data, q) && p < NameEnd(data, q + 1);
    }
    if InsideEarlierName(data, from, p) {
      var q: nat :| from <= q < p && OpensTag(data, q) && p < NameEnd(data, q + 1);
      assert OpensTag(data[..n], q) && p < NameEnd(data[..n], q + 1);
    }
  }

  /** A start tag of a truncation shows a notification in the whole. */
  lemma TruncatedStartTagShows(data: Bytes, n: nat, from: nat, p: nat)
    requires n <= |data| && StartTagAt(data[..n], from, p)
    ensures p < n && ShowsNotification(data, p) && !InsideEarlierName(data, from, p)
  {
    hide XmlLocalName, InsideEarlierName, NameEnd;
    var t := data[..n];
    TruncatedTag(data, n, p);
    TruncatedInside(data, n, from, p);
    var k := NameEnd(t, p + 1);
    assert t[p + 1..k] == data[p + 1..k];
    assert PassesAt(data, p, k);
  }

  /** And a notification shown becomes a start tag of the truncation that ends where it is shown. */
  lemma ShownAtTruncation(data: Bytes, k: nat, from: nat, p: nat)
    requires PassesAt(data, p, k)
    requires from <= p && !InsideEarlierName(data, from, p)
    ensures StartTagAt(data[..k], from, p)
  {
    hide XmlLocalName, InsideEarlierName, NameEnd;
    ShownNameIsLong(data, p + 1, k);
    TruncatedTag(data, k, p);
    TruncatedInside(data, k, from, p);
    assert data[..k][p + 1..k] == data[p + 1..k];
  }

  lemma ShownNameIsLong(data: Bytes, i: nat, k: nat)
    requires i <= k <= |data| && XmlLocalName(data[i..k]) == NOTIFICATION
    ensures i < k
  {
    hide LastColon;
  }

  // ----- Clean frames are quiet until they are complete -----

  lemma ShowsFrom(data: Bytes, start: nat, from: nat, p: nat)
    requires ShowsNoOther(data, start) && ShowsNotification(data, p) && !InsideEarlierName(data, from, p)
    requires from == 0 || from == start + 1 <= p
    ensures p == start
  {
    hide ShowsNotification, NameEnd, OpensTag;
  }

  /** No tag name reaches over the end of a close tag. */
  lemma OutsideAfterClose(data: Bytes, start: nat, end: nat, p: nat)
    requires start + 1 < end <= p < |data| && data[end - 1] == '>'
    requires !InsideEarlierName(data, end, p)
    ensures !InsideEarlierName(data, start + 1, p)
  {
    if InsideEarlierName(data, start + 1, p) {
      var q: nat :| start + 1 <= q < p && OpensTag(data, q) && p < NameEnd(data, q + 1);
      if q < end {
        assert q != end - 1;
        assert EndsName(data[end - 1]);
        assert false;
      }
    }
  }

  lemma NotificationEndsInClose(data: Bytes, start: nat)
    requires NotificationEnd(data, start).Some?
    ensures data[NotificationEnd(data, start).value - 1] == '>'
    ensures NameEnd(data, start + 1) < NotificationEnd(data, start).value
  {
    hide Find, NameEnd;
    var nameEnd := NameEnd(data, start + 1);
    var close := CloseTag(data[start + 1..nameEnd]);
    var i := Find(data, close, nameEnd).value;
    assert data[i + |close| - 1] == data[i..i + |close|][|close| - 1];
  }

  /** Behind the start tag of a truncation there is no second one. */
  lemma NothingBehindStart(wire: Bytes, start: nat, n: nat)
    requires n <= |wire| && StartTag(wire[..n], 0) == Some(start) && ShowsNoOther(wire, start)
    ensures var end := NotificationEnd(wire[..n], start);
      StartTag(wire[..n], if end.Some? then end.value else start + 1).None?
  {
    hide *;
    var t := wire[..n];
    var end := NotificationEnd(t, start);
    var from := if end.Some? then end.value else start + 1;
    if StartTag(t, from).Some? {
      var p := StartTag(t, from).value;
      TruncatedStartTagShows(wire, n, from, p);
      StartTagShape(t, from);
      if end.Some? {
        NotificationEndsInClose(t, start);
        OutsideAfterClose(wire, start, end.value, p);
      }
      ShowsFrom(wire, start, start + 1, p);
    }
  }

  lemma TruncatedCleanIsQuiet(wire: Bytes, start: nat, n: nat)
    requires MarkedAtEnd(wire) && n < |wire| && start <= |wire|
    requires BenignPrefix(wire[..start]) && ShowsNoOther(wire, start)
    ensures Quiet(wire[..n])
  {
    hide MarkedAtEnd, BenignPrefix, ShowsNoOther, StartTag, StartTagAt, NotificationEnd, NoEom;
    MarkedHasNoEarlierEom(wire, n);
    var t := wire[..n];
    if StartTag(t, 0).Some? {
      TruncatedStartTagShows(wire, n, 0, StartTag(t, 0).value);
      ShowsFrom(wire, start, 0, StartTag(t, 0).value);
      assert t[..start] == wire[..start];
      NothingBehindStart(wire, start, n);
    }
  }

  // ----- And only they are -----

  /** No tag opens inside a benign prefix but the declaration's own: another one would have an unfinished
      declaration in front of it. */
  lemma NothingOpensInBenignPrefix(prefix: Bytes, s: nat)
    requires BenignPrefix(prefix) && s < |prefix| && prefix[s] == '<' && (s + 1 < |prefix| ==> prefix[s + 1] != '?')
    ensures !BenignPrefix(prefix[..s])
  {
    hide BenignPrefix, Find, IsDeclarationBetweenBlanks, IsXmlDeclaration;
    BenignExactlyWhenBlankOrDeclaration(prefix);
    BenignExactlyWhenBlankOrDeclaration(prefix[..s]);
    assert !IsSpace(prefix[s]);
    var before, decl, after :| IsDeclarationBetweenBlanks(prefix, before, decl, after);
    DeclarationShape(prefix, before, decl, after);
    assert prefix[..s][|before|] == '<';
    if b, d, a :| IsDeclarationBetweenBlanks(prefix[..s], b, d, a) {
      DeclarationShape(prefix[..s], b, d, a);
      NoEarlierDeclarationEnd(prefix, before, decl, after, |b| + |d| - 2);
      assert false;
    }
  }

  lemma DeclarationShape(prefix: Bytes, before: Bytes, decl: Bytes, after: Bytes)
    requires IsDeclarationBetweenBlanks(prefix, before, decl, after)
    ensures |decl| >= 7 && |before| + |decl| <= |prefix|
    ensures prefix[|before|] == '<' && prefix[|before| + 1] == '?'
    ensures prefix[|before| + |decl| - 2] == '?' && prefix[|before| + |decl| - 1] == '>'
    ensures forall i :: 0 <= i < |prefix| && !IsSpace(prefix[i]) ==> |before| <= i < |before| + |decl|
  {
    hide IsXmlDeclaration, IsSpace;
    BlankOutside(prefix, before, decl, after);
    XmlDeclarationShape(decl);
    assert prefix[|before|..|before| + |decl|] == decl;
    var last := |before| + |decl| - 1;
    assert prefix[|before|] == decl[0] && prefix[|before| + 1] == decl[1];
    assert prefix[last - 1] == decl[|decl| - 2] && prefix[last] == decl[|decl| - 1];
  }

  lemma XmlDeclarationShape(decl: Bytes)
    requires IsXmlDeclaration(decl)
    ensures |decl| >= 7 && decl[0] == '<' && decl[1] == '?' && decl[|decl| - 2] == '?' && decl[|decl| - 1] == '>'
  {
    hide Find;
    assert decl[..5][0] == '<' && decl[..5][1] == '?';
    OccurrenceShows(decl, "?>", |decl| - 2, 0);
    OccurrenceShows(decl, "?>", |decl| - 2, 1);
  }

  lemma NoEarlierDeclarationEnd(prefix: Bytes, before: Bytes, decl: Bytes, after: Bytes, x: nat)
    requires IsDeclarationBetweenBlanks(prefix, before, decl, after)
    requires x + 1 < |prefix| && prefix[x] == '?' && prefix[x + 1] == '>'
    ensures x >= |before| + |decl| - 2
  {
    hide Find;
    DeclarationShape(prefix, before, decl, after);
    assert forall j: nat :: j + 2 <= |decl| && decl[j] == '?' && decl[j + 1] == '>' ==> OccursAt(decl, "?>", j);
    assert prefix[|before|..|before| + |decl|] == decl;
  }

  /** If a tag stands inside the name of a notification tag, the rest of the name makes it one too. */
  lemma NameInsideName(qname: Bytes, i: nat)
    requires i < |qname| && qname[i] == '<' && XmlLocalName(qname) == NOTIFICATION
    ensures i + 1 < |qname| && XmlLocalName(qname[i + 1..]) == NOTIFICATION
  {
    NothingOpensInLocalName(qname);
    var c := LastColon(qname, |qname|);
    var tail := qname[i + 1..];
    var d := LastColon(tail, |tail|);
    assert tail[c.value - i - 1] == ':';
    assert d.Some? && d.value == c.value - i - 1;
    assert tail[d.value + 1..] == qname[c.value + 1..];
  }

  lemma NothingOpensInLocalName(qname: Bytes)
    requires XmlLocalName(qname) == NOTIFICATION
    ensures forall j :: |qname| - |NOTIFICATION| <= j < |qname| ==> qname[j] != '<'
    ensures LastColon(qname, |qname|) == if |qname| > |NOTIFICATION| then Some(|qname| - |NOTIFICATION| - 1) else None
  {
    hide *;
    NothingOpensInNotification();
    LocalNameIsSuffix(qname);
    var begin := |qname| - |NOTIFICATION|;
    forall j | begin <= j < |qname| ensures qname[j] != '<' {
      assert qname[begin..][j - begin] == qname[j];
    }
  }

  lemma LocalNameIsSuffix(qname: Bytes)
    ensures var n := |qname| - |XmlLocalName(qname)|;
      && n >= 0 && XmlLocalName(qname) == qname[n..]
      && LastColon(qname, |qname|) == if n > 0 then Some(n - 1) else None
  {
    hide LastColon;
    if LastColon(qname, |qname|).None? {
      assert qname[0..] == qname;
    }
  }

  lemma NothingOpensInNotification()
    ensures |NOTIFICATION| > 0 && forall j :: 0 <= j < |NOTIFICATION| ==> NOTIFICATION[j] != '<'
  {
  }

  lemma ShownInFront(wire: Bytes, start: nat, p: nat, k: nat)
    requires start < |wire| && BenignPrefix(wire[..start])
    requires p < start && p + 1 < k <= |wire| && StartTagAt(wire[..k], 0, p)
    ensures !Quiet(wire[..k])
  {
    hide BenignPrefix, NotificationTagAt, InsideEarlierName, NoEom, NotificationEnd, StartTag;
    var t := wire[..k];
    var s := StartTag(t, 0).value;
    StartTagOpens(t, 0, s);
    NothingOpensInBenignPrefix(wire[..start], s);
    assert t[..s] == wire[..s] == wire[..start][..s];
  }

  lemma ShownBehind(wire: Bytes, start: nat, p: nat, k: nat)
    requires StartTag(wire, 0) == Some(start) && NameEnd(wire, start + 1) <= p
    requires PassesAt(wire, p, k) && !InsideEarlierName(wire, start + 1, p)
    ensures !Quiet(wire[..k])
  {
    hide BenignPrefix, NotificationTagAt, XmlLocalName, NoEom, NotificationEnd, StartTag, NameEnd;
    var t := wire[..k];
    ShownNameIsLong(wire, p + 1, k);
    StartTagInPrefix(wire, k);
    var end := NotificationEnd(t, start);
    if end.Some? {
      NotificationEndsInClose(t, start);
      assert wire[end.value - 1] == '>';
      assert end.value <= p;
      assert !InsideEarlierName(wire, end.value, p);
      ShownAtTruncation(wire, k, end.value, p);
    } else {
      ShownAtTruncation(wire, k, start + 1, p);
    }
  }

  lemma NoEndInsideName(data: Bytes, start: nat)
    requires start + 1 <= |data| && NameEnd(data, start + 1) == |data|
    ensures NotificationEnd(data, start).None?
  {
    if NotificationEnd(data, start).Some? {
      NotificationEndsInClose(data, start);
    }
  }

  lemma ShownInsideName(wire: Bytes, start: nat, p: nat)
    requires StartTag(wire, 0) == Some(start) && start < p < NameEnd(wire, start + 1) < |wire|
    requires OpensTag(wire, p) && !InsideEarlierName(wire, start + 1, p)
    ensures !Quiet(wire[..NameEnd(wire, start + 1)])
  {
    hide BenignPrefix, XmlLocalName, NoEom, NotificationEnd, StartTag, NameEnd, InsideEarlierName;
    var e := NameEnd(wire, start + 1);
    var t := wire[..e];
    NameInsideName(wire[start + 1..e], p - start - 1);
    assert wire[start + 1..e][p - start..] == wire[p + 1..e];
    NameEndUnique(wire, p + 1, e);
    StartTagShape(wire, 0);
    ShownAtTruncation(wire, e, 0, start);
    ShownAtTruncation(wire, e, start + 1, p);
    FirstStaysFirst(wire, start, e);
    TruncatedTag(wire, e, start);
    NoEndInsideName(t, start);
  }

  /** A truncation that still shows the first start tag shows it first. */
  lemma FirstStaysFirst(wire: Bytes, start: nat, k: nat)
    requires StartTag(wire, 0) == Some(start) && k <= |wire| && StartTagAt(wire[..k], 0, start)
    ensures StartTag(wire[..k], 0) == Some(start)
  {
    hide StartTag, XmlLocalName, NameEnd;
    var t := wire[..k];
    var s := StartTag(t, 0).value;
    if s < start {
      EarlierNameEnds(t, s, start);
      assert wire == t + wire[k..];
      StartTagStable(t, wire[k..], 0);
    }
  }

  lemma ShownIsCutEarly(wire: Bytes, start: nat, p: nat) returns (n: nat)
    requires MarkedAtEnd(wire) && StartTag(wire, 0) == Some(start) && BenignPrefix(wire[..start])
    requires p != start && ShowsNotification(wire, p) && !InsideEarlierName(wire, if p < start then 0 else start + 1, p)
    ensures n < |wire| && !Quiet(wire[..n])
  {
    hide MarkedAtEnd, BenignPrefix, StartTag, NoEom, Quiet, XmlLocalName, InsideEarlierName, NameEnd, StartTagAt;
    var k: nat :| PassesAt(wire, p, k);
    NamesEndInFrame(wire, p);
    ShownNameIsLong(wire, p + 1, k);
    if p < start {
      ShownAtTruncation(wire, k, 0, p);
      ShownInFront(wire, start, p, k);
      n := k;
    } else if NameEnd(wire, start + 1) <= p {
      ShownBehind(wire, start, p, k);
      n := k;
    } else {
      StartTagOpens(wire, 0, start);
      NamesEndInFrame(wire, start);
      ShownInsideName(wire, start, p);
      n := NameEnd(wire, start + 1);
    }
  }

  /** What clean means for the parser: it finds nothing to cut until the last byte of the frame is there. */
  lemma CleanExactlyWhenQuietUntilComplete(frame: Bytes)
    ensures var wire := Wire(Frame(frame));
      Clean(frame) <==> WellFramed(frame) && forall n :: 0 <= n < |wire| ==> Quiet(wire[..n])
  {
    hide Wire, MarkedAtEnd, BenignPrefix, StartTag, Quiet, ShowsNotification, InsideEarlierName;
    var wire := Wire(Frame(frame));
    if Clean(frame) {
      forall n | 0 <= n < |wire| ensures Quiet(wire[..n]) {
        TruncatedCleanIsQuiet(wire, StartTag(wire, 0).value, n);
      }
    }
    if WellFramed(frame) && !Clean(frame) {
      var start := StartTag(wire, 0).value;
      var p: nat :| p != start && ShowsNotification(wire, p)
                    && !InsideEarlierName(wire, if p < start then 0 else start + 1, p);
      var n := ShownIsCutEarly(wire, start, p);
    }
  }
}
