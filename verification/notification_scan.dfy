/** The scanners at the top of the notification reader: where a notification start tag is,
    what may stand in front of it, and where its notification ends. */
module NotificationScan {
  import opened Wrappers
  import opened ByteStrings

  const NOTIFICATION: Bytes := "notification"

  predicate EndsName(c: char) {
    IsSpace(c) || c == '>' || c == '/'
  }

  /** The end of the tag name that begins at `i`. */
  function NameEnd(data: Bytes, i: nat): (e: nat)
    requires i <= |data|
    ensures i <= e <= |data|
    ensures forall j :: i <= j < e ==> !EndsName(data[j])
    ensures e < |data| ==> EndsName(data[e])
    decreases |data| - i
  {
    if i == |data| || EndsName(data[i]) then i else NameEnd(data, i + 1)
  }

  /** The last colon of `qname[..n]`. */
  function LastColon(qname: Bytes, n: nat): (r: Option<nat>)
    requires n <= |qname|
    ensures r.Some? ==> r.value < n && qname[r.value] == ':'
    ensures forall j :: 0 <= j < n && (r.Some? ==> r.value < j) ==> qname[j] != ':'
  {
    if n == 0 then None else if qname[n - 1] == ':' then Some(n - 1) else LastColon(qname, n - 1)
  }

  function XmlLocalName(qname: Bytes): Bytes {
    var colon := LastColon(qname, |qname|);
    if colon.None? then qname else qname[colon.value + 1..]
  }

  // ----- What the scan for a start tag finds, said without a scan -----

  /** A `<` followed by something other than `/`, `!` or `?`. */
  predicate OpensTag(data: Bytes, p: nat) {
    p + 1 < |data| && data[p] == '<' && data[p + 1] != '/' && data[p + 1] != '!' && data[p + 1] != '?'
  }

  /** The tag opened at `p` has local name `notification`; its name may still be running at the end of the data. */
  predicate NotificationTagAt(data: Bytes, p: nat) {
    OpensTag(data, p) && XmlLocalName(data[p + 1..NameEnd(data, p + 1)]) == NOTIFICATION
  }

  /** `p` lies inside the unbroken name of a tag opened earlier, at or after `from`. */
  ghost predicate InsideEarlierName(data: Bytes, from: nat, p: nat) {
    exists q: nat :: from <= q < p && OpensTag(data, q) && p < NameEnd(data, q + 1)
  }

  ghost predicate StartTagAt(data: Bytes, from: nat, p: nat) {
    from <= p && NotificationTagAt(data, p) && !InsideEarlierName(data, from, p)
  }

  /** The least start tag at or after `from`. */
  ghost function StartTag(data: Bytes, from: nat): (r: Option<nat>)
    ensures r.Some? ==> r.value < |data| && StartTagAt(data, from, r.value)
    ensures forall p: nat :: StartTagAt(data, from, p) ==> r.Some? && r.value <= p
  {
    StartTagSearch(data, from, 0)
  }

  ghost function StartTagSearch(data: Bytes, from: nat, p: nat): (r: Option<nat>)
    ensures r.Some? ==> p <= r.value && StartTagAt(data, from, r.value)
    ensures forall q: nat :: p <= q && StartTagAt(data, from, q) ==> r.Some? && r.value <= q
    decreases |data| - p
  {
    if p >= |data| then None
    else if StartTagAt(data, from, p) then Some(p)
    else StartTagSearch(data, from, p + 1)
  }

  /** The name loop that both scanners run. */
  method SkipName(data: Bytes, nameBegin: nat) returns (nameEnd: nat)
    requires nameBegin <= |data|
    ensures nameEnd == NameEnd(data, nameBegin)
  {
    nameEnd := nameBegin;
    while nameEnd < |data| && !EndsName(data[nameEnd])
      invariant nameBegin <= nameEnd <= |data|
      invariant NameEnd(data, nameBegin) == NameEnd(data, nameEnd)
    {
      nameEnd := nameEnd + 1;
    }
  }

  /** How far a scan that began at `from` has come: nothing before `pos` is a start tag,
      and no tag name opened before `pos` reaches beyond it. */
  ghost predicate ScannedTo(data: Bytes, from: nat, pos: nat) {
    && from <= pos
    && (forall p: nat :: p < pos ==> !StartTagAt(data, from, p))
    && (forall q: nat :: from <= q < pos && OpensTag(data, q) ==> NameEnd(data, q + 1) <= pos)
  }

  lemma ScanBegins(data: Bytes, from: nat)
    ensures ScannedTo(data, from, from)
  {
  }

  lemma ScanSkips(data: Bytes, from: nat, pos: nat, next: nat)
    requires ScannedTo(data, from, pos) && pos <= next
    requires forall p: nat :: pos <= p < next ==> !OpensTag(data, p)
    ensures ScannedTo(data, from, next)
  {
  }

  lemma ScanSkipsName(data: Bytes, from: nat, pos: nat)
    requires ScannedTo(data, from, pos) && OpensTag(data, pos) && !NotificationTagAt(data, pos)
    ensures ScannedTo(data, from, NameEnd(data, pos + 1))
  {
    var nameEnd := NameEnd(data, pos + 1);
    assert !EndsName(data[pos]);
    forall q: nat | pos <= q < nameEnd && OpensTag(data, q) ensures NameEnd(data, q + 1) <= nameEnd {
      NameEndUnique(data, q + 1, nameEnd);
    }
    forall p: nat | pos < p < nameEnd ensures InsideEarlierName(data, from, p) {
    }
  }

  lemma NameEndUnique(data: Bytes, i: nat, e: nat)
    requires i <= e <= |data| && (forall j :: i <= j < e ==> !EndsName(data[j]))
    requires e < |data| ==> EndsName(data[e])
    ensures NameEnd(data, i) == e
  {
  }

  lemma ScanFinds(data: Bytes, from: nat, pos: nat)
    requires ScannedTo(data, from, pos) && NotificationTagAt(data, pos)
    ensures StartTag(data, from) == Some(pos)
  {
    assert StartTagAt(data, from, pos);
  }

  lemma ScanFindsNone(data: Bytes, from: nat, pos: nat)
    requires ScannedTo(data, from, pos)
    requires var found := FindChar(data, '<', pos); found.None? || found.value + 1 >= |data|
    ensures StartTag(data, from) == None
  {
  }

  /** One `<` of the scan: either it is the start tag, or the scan goes on strictly behind it. */
  lemma ScanStep(data: Bytes, from: nat, pos: nat, open: nat)
    requires ScannedTo(data, from, pos)
    requires FindChar(data, '<', pos) == Some(open) && open + 1 < |data|
    ensures !OpensTag(data, open) ==> ScannedTo(data, from, open + 1)
    ensures OpensTag(data, open) && NotificationTagAt(data, open) ==>
              NameEnd(data, open + 1) > open + 1 && StartTag(data, from) == Some(open)
    ensures OpensTag(data, open) && !NotificationTagAt(data, open) ==> ScannedTo(data, from, NameEnd(data, open + 1))
  {
    ScanSkips(data, from, pos, open);
    if !OpensTag(data, open) {
      ScanSkips(data, from, open, open + 1);
    } else if NotificationTagAt(data, open) {
      ScanFinds(data, from, open);
    } else {
      ScanSkipsName(data, from, open);
    }
  }

  /** `find_notification_start_tag`: jumps from `<` to `<`, past each tag name it rejects, and still
      finds the least start tag. */
  method FindNotificationStartTag(data: Bytes, from: nat) returns (r: Option<nat>)
    ensures r == StartTag(data, from)
  {
    hide XmlLocalName, ScannedTo, StartTag;
    var pos := from;
    ScanBegins(data, from);
    while true
      invariant ScannedTo(data, from, pos)
      decreases |data| - pos
    {
      var found := FindChar(data, '<', pos);
      if found.None? || found.value + 1 >= |data| {
        ScanFindsNone(data, from, pos);
        return None;
      }
      ScanStep(data, from, pos, found.value);
      pos := found.value;
      if data[pos + 1] == '/' || data[pos + 1] == '!' || data[pos + 1] == '?' {
        pos := pos + 1;
        continue;
      }
      var nameEnd := SkipName(data, pos + 1);
      if nameEnd == pos + 1 {
        pos := pos + 1;
        continue;
      }
      if XmlLocalName(data[pos + 1..nameEnd]) == NOTIFICATION {
        return Some(pos);
      }
      pos := nameEnd;
    }
  }

  // ----- The end of a notification -----

  function CloseTag(qname: Bytes): (r: Bytes)
    ensures |r| == |qname| + 3
  {
    "</" + qname + ">"
  }

  /** `notification_end_after_start`: just behind the first close tag spelled like the name opened at `start`. */
  function NotificationEnd(data: Bytes, start: nat): (r: Option<nat>)
    ensures r.Some? ==> start + 1 < r.value <= |data|
  {
    if start + 1 >= |data| then None
    else
      var nameEnd := NameEnd(data, start + 1);
      if nameEnd == start + 1 then None
      else
        var close := CloseTag(data[start + 1..nameEnd]);
        match Find(data, close, nameEnd)
        case None => None
        case Some(closePos) => Some(closePos + |close|)
  }

  method NotificationEndAfterStart(data: Bytes, start: nat) returns (endAfter: Option<nat>)
    ensures endAfter == NotificationEnd(data, start)
  {
    if start + 1 >= |data| {
      return None;
    }
    var nameEnd := SkipName(data, start + 1);
    if nameEnd == start + 1 {
      return None;
    }
    var close := CloseTag(data[start + 1..nameEnd]);
    var closePos := Find(data, close, nameEnd);
    return if closePos.None? then None else Some(closePos.value + |close|);
  }

  // ----- What may precede a start tag -----

  predicate BenignPrefix(prefix: Bytes) {
    var trimmed := TrimCopy(prefix);
    if trimmed == [] then true
    else if IsPrefix("<?xml", trimmed) then
      match Find(trimmed, "?>", 0)
      case None => false
      case Some(endDecl) => TrimCopy(trimmed[endDecl + 2..]) == []
    else false
  }

  /** An XML declaration: from `<?xml` to the first `?>`. */
  predicate IsXmlDeclaration(decl: Bytes) {
    IsPrefix("<?xml", decl) && |decl| >= 7 && Find(decl, "?>", 0) == Some(|decl| - 2)
  }

  predicate IsDeclarationBetweenBlanks(prefix: Bytes, before: Bytes, decl: Bytes, after: Bytes) {
    prefix == before + decl + after && Blank(before) && Blank(after) && IsXmlDeclaration(decl)
  }

  /** A prefix is benign exactly if it is blank or one XML declaration between blanks. */
  lemma BenignExactlyWhenBlankOrDeclaration(prefix: Bytes)
    ensures BenignPrefix(prefix) <==>
      Blank(prefix) || exists before, decl, after :: IsDeclarationBetweenBlanks(prefix, before, decl, after)
  {
    hide TrimCopy, Blank, IsSpace, Find;
    TrimsToNothing(prefix);
    var trimmed := TrimCopy(prefix);
    var b, a := TrimCopySplits(prefix);
    if BenignPrefix(prefix) && trimmed != [] {
      BenignTrimmedIsDeclaration(trimmed);
      assert IsDeclarationBetweenBlanks(prefix, b, trimmed, a);
    }
    if before, decl, after :| IsDeclarationBetweenBlanks(prefix, before, decl, after) {
      DeclarationIsBenign(decl);
      TrimCopyIs(prefix, before, decl, after);
    }
  }

  lemma BenignTrimmedIsDeclaration(trimmed: Bytes)
    requires trimmed != [] && !IsSpace(trimmed[|trimmed| - 1]) && IsPrefix("<?xml", trimmed)
    requires Find(trimmed, "?>", 0).Some? && TrimCopy(trimmed[Find(trimmed, "?>", 0).value + 2..]) == []
    ensures IsXmlDeclaration(trimmed)
  {
    hide TrimCopy, Find;
    var end := Find(trimmed, "?>", 0).value;
    var rest := trimmed[end + 2..];
    TrimsToNothing(rest);
    EndsBehindXmlTag(trimmed, end);
  }

  lemma EndsBehindXmlTag(s: Bytes, end: nat)
    requires IsPrefix("<?xml", s) && OccursAt(s, "?>", end)
    ensures end >= 5
  {
    OccurrenceBegins(s, "?>", end);
    assert s[end + 1] == s[end..end + 2][1];
    var tag: Bytes := "<?xml";
    assert forall j :: 0 <= j < 5 ==> s[j] == tag[j];
  }

  lemma DeclarationIsBenign(decl: Bytes)
    requires IsXmlDeclaration(decl)
    ensures !IsSpace(decl[0]) && !IsSpace(decl[|decl| - 1])
    ensures TrimCopy(decl[Find(decl, "?>", 0).value + 2..]) == []
  {
    hide Find;
    assert decl[..5][0] == '<';
    assert decl[|decl| - 2..|decl|][1] == '>';
    TrimsToNothing([]);
  }

  // ----- Laws -----

  /** What a found position looks like. */
  lemma StartTagShape(data: Bytes, from: nat)
    requires StartTag(data, from).Some?
    ensures var r := StartTag(data, from).value;
      && from <= r < |data| && data[r] == '<'
      && XmlLocalName(data[r + 1..NameEnd(data, r + 1)]) == NOTIFICATION
  {
  }

  /** Once the tag name found is terminated inside the data, no further byte can move the result. */
  lemma StartTagStable(data: Bytes, x: Bytes, from: nat)
    requires StartTag(data, from).Some?
    requires NameEnd(data, StartTag(data, from).value + 1) < |data|
    ensures StartTag(data + x, from) == StartTag(data, from)
  {
    var r := StartTag(data, from).value;
    assert ScannedTo(data, from, r);
    forall p: nat | from <= p <= r && OpensTag(data, p)
      ensures NameEnd(data, p + 1) < |data|
    {
    }
    ScannedStable(data, x, from, r);
    TagStable(data, x, r);
    ScanFinds(data + x, from, r);
  }

  lemma ScannedStable(data: Bytes, x: Bytes, from: nat, pos: nat)
    requires ScannedTo(data, from, pos) && pos < |data|
    ensures ScannedTo(data + x, from, pos)
  {
    forall q: nat | q < pos && OpensTag(data + x, q) && from <= q
      ensures NameEnd(data + x, q + 1) <= pos
    {
      assert OpensTag(data, q);
      NameEndStable(data, x, q + 1);
    }
    forall p: nat | p < pos ensures !StartTagAt(data + x, from, p) {
      if StartTagAt(data + x, from, p) {
        assert OpensTag(data, p) && NameEnd(data, p + 1) <= pos;
        TagStable(data, x, p);
        assert !StartTagAt(data, from, p);
        InsideStays(data, x, from, p);
      }
    }
  }

  lemma InsideStays(data: Bytes, x: Bytes, from: nat, p: nat)
    requires InsideEarlierName(data, from, p)
    ensures InsideEarlierName(data + x, from, p)
  {
    var q: nat :| from <= q < p && OpensTag(data, q) && p < NameEnd(data, q + 1);
    NameEndGrows(data, x, q + 1);
    assert OpensTag(data + x, q);
  }

  /** A tag whose name is terminated reads the same however the data go on. */
  lemma TagStable(data: Bytes, x: Bytes, p: nat)
    requires OpensTag(data, p) && NameEnd(data, p + 1) < |data|
    ensures OpensTag(data + x, p)
    ensures NameEnd(data + x, p + 1) == NameEnd(data, p + 1)
    ensures NotificationTagAt(data + x, p) <==> NotificationTagAt(data, p)
  {
    NameEndStable(data, x, p + 1);
    assert (data + x)[p + 1..NameEnd(data, p + 1)] == data[p + 1..NameEnd(data, p + 1)];
  }

  lemma NameEndStable(data: Bytes, x: Bytes, i: nat)
    requires i <= |data| && NameEnd(data, i) < |data|
    ensures NameEnd(data + x, i) == NameEnd(data, i)
  {
    var e, f := NameEnd(data, i), NameEnd(data + x, i);
    assert EndsName((data + x)[e]);
    assert f <= e;
  }

  lemma NameEndGrows(data: Bytes, x: Bytes, i: nat)
    requires i <= |data|
    ensures NameEnd(data + x, i) >= NameEnd(data, i)
  {
    var f := NameEnd(data + x, i);
    assert f < |data| ==> (data + x)[f] == data[f];
  }

  /** Conversely, a prefix that still terminates the tag name found has the same first start tag. */
  lemma StartTagInPrefix(data: Bytes, n: nat)
    requires n <= |data| && StartTag(data, 0).Some?
    requires NameEnd(data, StartTag(data, 0).value + 1) < n
    ensures StartTag(data[..n], 0) == StartTag(data, 0)
  {
    hide *;
    var r := StartTag(data, 0).value;
    StartTagAtInPrefix(data, n, r);
    var s := StartTag(data[..n], 0).value;
    if s < r {
      EarlierNameEnds(data[..n], s, r);
      assert data == data[..n] + data[n..];
      StartTagStable(data[..n], data[n..], 0);
    }
  }

  lemma EarlierNameEnds(data: Bytes, s: nat, r: nat)
    requires s < r && StartTagAt(data, 0, s) && StartTagAt(data, 0, r)
    ensures NameEnd(data, s + 1) <= r
  {
  }

  lemma StartTagAtInPrefix(data: Bytes, n: nat, r: nat)
    requires StartTagAt(data, 0, r) && NameEnd(data, r + 1) < n <= |data|
    ensures StartTagAt(data[..n], 0, r)
  {
    hide XmlLocalName;
    assert data == data[..n] + data[n..];
    NameEndInPrefix(data, n, r + 1);
    TagStable(data[..n], data[n..], r);
    if InsideEarlierName(data[..n], 0, r) {
      InsideStays(data[..n], data[n..], 0, r);
    }
  }

  lemma NameEndInPrefix(data: Bytes, n: nat, i: nat)
    requires i <= n <= |data| && NameEnd(data, i) < n
    ensures NameEnd(data[..n], i) == NameEnd(data, i)
  {
    assert EndsName(data[..n][NameEnd(data, i)]);
  }

  /** What the end of a notification is made of. */
  lemma NotificationEndParts(data: Bytes, start: nat, nameEnd: nat)
    requires start + 1 < nameEnd <= |data| && NameEnd(data, start + 1) == nameEnd
    ensures var close := CloseTag(data[start + 1..nameEnd]);
      var found := Find(data, close, nameEnd);
      NotificationEnd(data, start) == if found.None? then None else Some(found.value + |close|)
  {
    hide Find, CloseTag, NameEnd;
  }

  lemma NotificationHasName(data: Bytes, start: nat)
    requires NotificationEnd(data, start).Some?
    ensures start + 1 < NameEnd(data, start + 1) < NotificationEnd(data, start).value
  {
    hide Find, NameEnd;
  }

  /** Cut right behind its close tag, a notification still ends there. */
  lemma NotificationEndInPrefix(data: Bytes, start: nat)
    requires NotificationEnd(data, start).Some?
    ensures var e := NotificationEnd(data, start).value;
      && NameEnd(data, start + 1) < e
      && NotificationEnd(data[..e], start) == Some(e)
  {
    hide Find, CloseTag, NameEnd, EndsName, OccursAt, NotificationEnd;
    NotificationHasName(data, start);
    var e, nameEnd := NotificationEnd(data, start).value, NameEnd(data, start + 1);
    NotificationEndParts(data, start, nameEnd);
    NameEndInPrefix(data, e, start + 1);
    assert data[..e][start + 1..nameEnd] == data[start + 1..nameEnd];
    FindInPrefix(data, CloseTag(data[start + 1..nameEnd]), nameEnd, e);
    NotificationEndParts(data[..e], start, nameEnd);
  }

  // ----- Shifting -----

  function ShiftBy(n: nat, r: Option<nat>): Option<nat> {
    if r.None? then None else Some(n + r.value)
  }

  lemma NameEndShifts(a: Bytes, y: Bytes, i: nat)
    requires i <= |y|
    ensures NameEnd(a + y, |a| + i) == |a| + NameEnd(y, i)
  {
    var e := NameEnd(y, i);
    assert forall j :: i <= j < e ==> (a + y)[|a| + j] == y[j];
    NameEndUnique(a + y, |a| + i, |a| + e);
  }

  lemma TagShifts(a: Bytes, y: Bytes, p: nat)
    ensures OpensTag(a + y, |a| + p) <==> OpensTag(y, p)
    ensures OpensTag(y, p) ==> NameEnd(a + y, |a| + p + 1) == |a| + NameEnd(y, p + 1)
    ensures NotificationTagAt(a + y, |a| + p) <==> NotificationTagAt(y, p)
  {
    hide NameEnd, XmlLocalName;
    if OpensTag(y, p) {
      NameEndShifts(a, y, p + 1);
      assert (a + y)[|a| + p + 1..|a| + NameEnd(y, p + 1)] == y[p + 1..NameEnd(y, p + 1)];
    }
  }

  lemma NameAround(data: Bytes, from: nat, p: nat) returns (q: nat)
    requires InsideEarlierName(data, from, p)
    ensures from <= q < p && OpensTag(data, q) && p < NameEnd(data, q + 1)
  {
    q :| from <= q < p && OpensTag(data, q) && p < NameEnd(data, q + 1);
  }

  lemma InsideName(data: Bytes, from: nat, q: nat, p: nat)
    requires from <= q < p && OpensTag(data, q) && p < NameEnd(data, q + 1)
    ensures InsideEarlierName(data, from, p)
  {
  }

  lemma InsideShifts(a: Bytes, y: Bytes, p: nat)
    ensures InsideEarlierName(a + y, |a|, |a| + p) <==> InsideEarlierName(y, 0, p)
  {
    hide OpensTag, NameEnd, InsideEarlierName, NotificationTagAt;
    if InsideEarlierName(a + y, |a|, |a| + p) {
      var q := NameAround(a + y, |a|, |a| + p);
      TagShifts(a, y, q - |a|);
      InsideName(y, 0, q - |a|, p);
    }
    if InsideEarlierName(y, 0, p) {
      var q := NameAround(y, 0, p);
      TagShifts(a, y, q);
      InsideName(a + y, |a|, |a| + q, |a| + p);
    }
  }

  lemma StartTagAtShifts(a: Bytes, y: Bytes, p: nat)
    ensures StartTagAt(a + y, |a|, |a| + p) <==> StartTagAt(y, 0, p)
  {
    hide NotificationTagAt, InsideEarlierName;
    TagShifts(a, y, p);
    InsideShifts(a, y, p);
  }

  /** A scan that begins behind `a` does not see `a`. */
  lemma StartTagShifts(a: Bytes, y: Bytes)
    ensures StartTag(a + y, |a|) == ShiftBy(|a|, StartTag(y, 0))
  {
    hide StartTag, StartTagAt;
    var r, s := StartTag(a + y, |a|), StartTag(y, 0);
    if r.Some? {
      AtOrAfter(a + y, |a|, r.value);
      StartTagAtShifts(a, y, r.value - |a|);
    }
    if s.Some? {
      StartTagAtShifts(a, y, s.value);
    }
  }

  lemma AtOrAfter(data: Bytes, from: nat, p: nat)
    requires StartTagAt(data, from, p)
    ensures from <= p
  {
  }
}
