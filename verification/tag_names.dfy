/** What the scanners do on tags as they are written: a name, what ends it, and what follows. */
module TagNames {
  import opened Wrappers
  import opened ByteStrings
  import opened NotificationScan

  /** The characters that `isspace` accepts in the C locale: space, tab, line feed, vertical tab, form feed, return. */
  const SPACES: set<char> := {' ', '\t', '\n', '\U{000B}', '\U{000C}', '\r'}

  lemma SixSpaces(c: char)
    ensures IsSpace(c) <==> c in SPACES
  {
  }

  /** What ends a tag name. */
  lemma NameEnders(c: char)
    ensures EndsName(c) <==> c in SPACES || c == '>' || c == '/'
  {
  }

  /** A tag name as it may be written: it opens no tag, holds nothing that ends a name, and does not begin like a
      comment, a declaration or an instruction. */
  predicate NameText(name: Bytes) {
    && name != [] && name[0] != '!' && name[0] != '?'
    && forall i :: 0 <= i < |name| ==>
         name[i] !in SPACES && name[i] != '<' && name[i] != '>' && name[i] != '/'
  }

  /** No prefix, or one that ends in a colon. */
  predicate PrefixText(prefix: Bytes) {
    prefix == [] || prefix[|prefix| - 1] == ':'
  }

  lemma LocalNameOf(prefix: Bytes, local: Bytes)
    requires PrefixText(prefix) && forall i :: 0 <= i < |local| ==> local[i] != ':'
    ensures XmlLocalName(prefix + local) == local
  {
    var qname := prefix + local;
    var colon := LastColon(qname, |qname|);
    if prefix == [] {
      assert qname == local;
      assert colon.None?;
    } else {
      assert qname[|prefix| - 1] == ':';
      assert forall j :: |prefix| <= j < |qname| ==> qname[j] == local[j - |prefix|];
      assert colon == Some(|prefix| - 1);
      assert qname[|prefix|..] == local;
    }
  }

  /** A scan that has passed a tag name sees what a scan beginning behind it sees. */
  lemma ScanContinues(data: Bytes, from: nat, pos: nat)
    requires ScannedTo(data, from, pos)
    ensures StartTag(data, from) == StartTag(data, pos)
  {
    hide NotificationTagAt, NameEnd, OpensTag, StartTag;
    var r, t := StartTag(data, from), StartTag(data, pos);
    forall p: nat | p >= pos ensures InsideEarlierName(data, from, p) <==> InsideEarlierName(data, pos, p) {
      SameInside(data, from, pos, p);
    }
    if r.Some? {
      assert StartTagAt(data, pos, r.value);
    }
    if t.Some? {
      assert StartTagAt(data, from, t.value);
    }
  }

  lemma SameInside(data: Bytes, from: nat, pos: nat, p: nat)
    requires ScannedTo(data, from, pos) && pos <= p
    ensures InsideEarlierName(data, from, p) <==> InsideEarlierName(data, pos, p)
  {
    hide InsideEarlierName, StartTagAt, NameEnd, OpensTag;
    if InsideEarlierName(data, from, p) {
      var q := NameAround(data, from, p);
      if q >= pos {
        InsideName(data, pos, q, p);
      } else {
        assert false;
      }
    }
    if InsideEarlierName(data, pos, p) {
      var q := NameAround(data, pos, p);
      InsideName(data, from, q, p);
    }
  }

  lemma SliceInside(front: Bytes, mid: Bytes, back: Bytes)
    ensures var data := front + mid + back;
      && data[|front|..|front| + |mid|] == mid
      && (forall j :: |front| <= j < |front| + |mid| ==> data[j] == mid[j - |front|])
      && (back != [] ==> data[|front| + |mid|] == back[0])
  {
  }

  lemma NothingEndsInside(name: Bytes, i: nat)
    requires NameText(name) && i < |name|
    ensures !EndsName(name[i]) && name[0] != '/' && name[0] != '!' && name[0] != '?'
  {
    NameEnders(name[i]);
  }

  lemma TagOpensBetween(a: Bytes, name: Bytes, back: Bytes)
    requires NameText(name)
    ensures OpensTag(a + "<" + name + back, |a|)
  {
    hide NameText, EndsName;
    NameNotEmpty(name);
    NothingEndsInside(name, 0);
    SliceInside(a + "<", name, back);
    assert (a + "<" + name + back)[|a|] == (a + "<")[|a|];
  }

  lemma NameEndsBetween(front: Bytes, name: Bytes, back: Bytes)
    requires NameText(name) && (back != [] ==> EndsName(back[0]))
    ensures NameEnd(front + name + back, |front|) == |front| + |name|
  {
    hide NameText, EndsName, NameEnd;
    var data := front + name + back;
    SliceInside(front, name, back);
    forall j | |front| <= j < |front| + |name| ensures !EndsName(data[j]) {
      NothingEndsInside(name, j - |front|);
    }
    NameEndUnique(data, |front|, |front| + |name|);
  }

  /** A written name behind a `<` is the name of the tag, if the data end there or something ends it. */
  lemma NameBetween(a: Bytes, name: Bytes, back: Bytes)
    requires NameText(name) && (back != [] ==> EndsName(back[0]))
    ensures var data := a + "<" + name + back;
      && OpensTag(data, |a|) && NameEnd(data, |a| + 1) == |a| + 1 + |name|
      && data[|a| + 1..|a| + 1 + |name|] == name
  {
    hide NameText, EndsName, NameEnd, OpensTag;
    TagOpensBetween(a, name, back);
    NameEndsBetween(a + "<", name, back);
    SliceInside(a + "<", name, back);
  }

  lemma NameNotEmpty(name: Bytes)
    requires NameText(name)
    ensures |name| > 0
  {
  }

  lemma ReachesFirstOpening(data: Bytes, a: Bytes)
    requires IsPrefix(a, data) && forall i :: 0 <= i < |a| ==> a[i] != '<'
    ensures ScannedTo(data, 0, |a|)
  {
    hide ScannedTo;
    ScanBegins(data, 0);
    assert forall p :: 0 <= p < |a| ==> data[p] == data[..|a|][p];
    ScanSkips(data, 0, 0, |a|);
  }

  /** The first tag of the data, by its local name. */
  lemma FirstTag(a: Bytes, name: Bytes, back: Bytes)
    requires forall i :: 0 <= i < |a| ==> a[i] != '<'
    requires NameText(name) && (back != [] ==> EndsName(back[0]))
    ensures StartTag(a + "<" + name + back, 0) ==
      if XmlLocalName(name) == "notification" then Some(|a|) else ShiftBy(|a + "<" + name|, StartTag(back, 0))
  {
    hide ScannedTo, StartTag, NameText, EndsName, XmlLocalName, OpensTag, NameEnd;
    var front := a + "<" + name;
    var data := front + back;
    NameBetween(a, name, back);
    FirstTagReached(a, name, back);
    NamedIsNotification(data, |a|, XmlLocalName(name));
    if XmlLocalName(name) == "notification" {
      ScanFinds(data, 0, |a|);
    } else {
      ScanSkipsName(data, 0, |a|);
      ScanContinues(data, 0, |front|);
      StartTagShifts(front, back);
    }
  }

  lemma FirstTagReached(a: Bytes, name: Bytes, back: Bytes)
    requires forall i :: 0 <= i < |a| ==> a[i] != '<'
    ensures ScannedTo(a + "<" + name + back, 0, |a|)
  {
    hide ScannedTo;
    assert a + "<" + name + back == a + ("<" + name + back);
    BeginsWith(a, "<" + name + back);
    ReachesFirstOpening(a + "<" + name + back, a);
  }

  lemma Joins(a: Bytes, prefix: Bytes, local: Bytes, back: Bytes)
    ensures a + "<" + prefix + local + back == a + "<" + (prefix + local) + back
  {
  }

  /** The first tag of the data, with its name, what ends it, and anything behind that, attributes included: it is
      found exactly when its local name is `notification`; otherwise the scan goes on behind the name. */
  lemma FoundExactlyWhenNamedSo(a: Bytes, prefix: Bytes, local: Bytes, c: char, b: Bytes)
    requires forall i :: 0 <= i < |a| ==> a[i] != '<'
    requires NameText(prefix + local) && PrefixText(prefix) && forall i :: 0 <= i < |local| ==> local[i] != ':'
    requires c in SPACES || c == '>' || c == '/'
    ensures StartTag(a + "<" + prefix + local + [c] + b, 0) ==
      if local == "notification" then Some(|a|)
      else ShiftBy(|a| + 1 + |prefix + local|, StartTag([c] + b, 0))
  {
    hide StartTag, NameText, EndsName, XmlLocalName, SPACES, PrefixText;
    NameEnders(c);
    LocalNameOf(prefix, local);
    Joins(a, prefix, local, [c] + b);
    assert a + "<" + prefix + local + [c] + b == a + "<" + prefix + local + ([c] + b);
    FirstTag(a, prefix + local, [c] + b);
  }

  lemma BeginsWith(a: Bytes, b: Bytes)
    ensures IsPrefix(a, a + b)
  {
  }

  lemma NamedIsNotification(data: Bytes, p: nat, local: Bytes)
    requires OpensTag(data, p) && XmlLocalName(data[p + 1..NameEnd(data, p + 1)]) == local
    ensures NotificationTagAt(data, p) <==> local == "notification"
  {
    hide XmlLocalName, NameEnd;
  }

  /** While its name is still coming in, a tag is found as soon as what is there of it reads `notification`. */
  lemma FoundWhileRunning(a: Bytes, prefix: Bytes, local: Bytes)
    requires forall i :: 0 <= i < |a| ==> a[i] != '<'
    requires NameText(prefix + local) && PrefixText(prefix) && forall i :: 0 <= i < |local| ==> local[i] != ':'
    ensures StartTag(a + "<" + prefix + local, 0) == if local == "notification" then Some(|a|) else None
  {
    hide StartTag, NameText, EndsName, XmlLocalName, PrefixText;
    LocalNameOf(prefix, local);
    Joins(a, prefix, local, []);
    assert a + "<" + prefix + local + [] == a + "<" + prefix + local;
    FirstTag(a, prefix + local, []);
    NothingToStart();
  }

  lemma NothingToStart()
    ensures StartTag([], 0).None?
  {
  }

  /** Close tags, comments, declarations and instructions are no start tags, whatever they are called. */
  lemma NoStartTagOpens(a: Bytes, c: char, b: Bytes)
    requires forall i :: 0 <= i < |a| ==> a[i] != '<'
    requires c in {'/', '!', '?'}
    ensures StartTag(a + "<" + [c] + b, 0) == ShiftBy(|a| + 1, StartTag([c] + b, 0))
  {
    hide ScannedTo, StartTag, OpensTag;
    var front, back := a + "<", [c] + b;
    assert a + "<" + [c] + b == front + back;
    assert front + back == a + ("<" + back);
    BeginsWith(a, "<" + back);
    ReachesFirstOpening(front + back, a);
    NothingOpens(a, c, b);
    ScanSkips(front + back, 0, |a|, |front|);
    ScanContinues(front + back, 0, |front|);
    StartTagShifts(front, back);
  }

  lemma NothingOpens(a: Bytes, c: char, b: Bytes)
    requires c in {'/', '!', '?'}
    ensures !OpensTag(a + "<" + ([c] + b), |a|)
  {
  }

  /** A notification written as start tag, body and close tag ends behind the close tag, if the close tag does not
      occur earlier. */
  lemma EndsBehindCloseTag(a: Bytes, name: Bytes, c: char, body: Bytes, b: Bytes)
    requires NameText(name) && (c in SPACES || c == '>' || c == '/')
    requires Find([c] + body + "</" + name + ">" + b, "</" + name + ">", 0) == Some(1 + |body|)
    ensures NotificationEnd(a + "<" + name + [c] + body + "</" + name + ">" + b, |a|)
            == Some(|a + "<" + name + [c] + body + "</" + name + ">"|)
  {
    hide NameText, EndsName, Find, NameEnd, NotificationEnd, OpensTag, SPACES, CloseTag;
    var front, close := a + "<" + name, "</" + name + ">";
    var tail := [c] + body + "</" + name + ">" + b;
    NameEnders(c);
    NameNotEmpty(name);
    TailBegins(c, body, name, b);
    NameBetween(a, name, tail);
    FindShifts(front, tail, close);
    NotificationEndParts(front + tail, |a|, |front|);
    CloseTagIs(name);
    TailJoins(a, name, c, body, b);
  }

  lemma CloseTagIs(name: Bytes)
    ensures CloseTag(name) == "</" + name + ">"
  {
  }

  lemma TailBegins(c: char, body: Bytes, name: Bytes, b: Bytes)
    ensures var tail := [c] + body + "</" + name + ">" + b; tail != [] && tail[0] == c
  {
  }

  lemma TailJoins(a: Bytes, name: Bytes, c: char, body: Bytes, b: Bytes)
    ensures a + "<" + name + ([c] + body + "</" + name + ">" + b)
            == a + "<" + name + [c] + body + "</" + name + ">" + b
    ensures |a + "<" + name + [c] + body + "</" + name + ">"| == |a + "<" + name| + (1 + |body|) + |"</" + name + ">"|
  {
  }

  lemma OccurrenceShifts(front: Bytes, tail: Bytes, pat: Bytes, j: nat)
    ensures OccursAt(front + tail, pat, |front| + j) <==> OccursAt(tail, pat, j)
  {
    if |front| + j + |pat| <= |front + tail| {
      assert (front + tail)[|front| + j..|front| + j + |pat|] == tail[j..j + |pat|];
    }
  }

  lemma FindShifts(front: Bytes, tail: Bytes, pat: Bytes)
    ensures Find(front + tail, pat, |front|) == ShiftBy(|front|, Find(tail, pat, 0))
  {
    hide Find, OccursAt;
    var r, t := Find(front + tail, pat, |front|), Find(tail, pat, 0);
    if r.Some? {
      OccurrenceShifts(front, tail, pat, r.value - |front|);
    }
    if t.Some? {
      OccurrenceShifts(front, tail, pat, t.value);
    }
  }

  /** Between blanks, a text that runs from `<?xml` to the first `?>`. */
  predicate DeclarationText(prefix: Bytes, before: Bytes, body: Bytes, after: Bytes) {
    && prefix == before + ("<?xml" + body + "?>") + after
    && (forall c :: c in before || c in after ==> c in SPACES)
    && forall j: nat :: j < |body| + 5 ==> !OccursAt("<?xml" + body + "?>", "?>", j)
  }

  /** A prefix is benign exactly if it is made of spaces or is such a text. */
  lemma BenignExactlyWhenWrittenSo(prefix: Bytes)
    ensures BenignPrefix(prefix) <==>
      || (forall c :: c in prefix ==> c in SPACES)
      || exists before, body, after :: DeclarationText(prefix, before, body, after)
  {
    hide BenignPrefix, Blank, IsXmlDeclaration, IsDeclarationBetweenBlanks, DeclarationText;
    BenignExactlyWhenBlankOrDeclaration(prefix);
    BlankIsSixSpaces(prefix);
    if before, decl, after :| IsDeclarationBetweenBlanks(prefix, before, decl, after) {
      var body := DeclarationIsWritten(prefix, before, decl, after);
    }
    if before, body, after :| DeclarationText(prefix, before, body, after) {
      WrittenIsDeclaration(prefix, before, body, after);
    }
  }

  lemma DeclarationIsWritten(prefix: Bytes, before: Bytes, decl: Bytes, after: Bytes) returns (body: Bytes)
    requires IsDeclarationBetweenBlanks(prefix, before, decl, after)
    ensures DeclarationText(prefix, before, body, after)
  {
    hide IsXmlDeclaration, Blank;
    BlankIsSixSpaces(before);
    BlankIsSixSpaces(after);
    body := DeclarationBody(decl);
  }

  lemma WrittenIsDeclaration(prefix: Bytes, before: Bytes, body: Bytes, after: Bytes)
    requires DeclarationText(prefix, before, body, after)
    ensures IsDeclarationBetweenBlanks(prefix, before, "<?xml" + body + "?>", after)
  {
    hide IsXmlDeclaration, Blank, OccursAt;
    BlankIsSixSpaces(before);
    BlankIsSixSpaces(after);
    BodyMakesDeclaration(body);
  }

  lemma BlankIsSixSpaces(s: Bytes)
    ensures Blank(s) <==> forall c :: c in s ==> c in SPACES
  {
    hide IsSpace, SPACES;
    if Blank(s) {
      forall c | c in s ensures c in SPACES {
        var i :| 0 <= i < |s| && s[i] == c;
        SixSpaces(s[i]);
      }
    }
    if forall c :: c in s ==> c in SPACES {
      forall i | 0 <= i < |s| ensures IsSpace(s[i]) {
        SixSpaces(s[i]);
      }
    }
  }

  lemma DeclarationBody(decl: Bytes) returns (body: Bytes)
    requires IsXmlDeclaration(decl)
    ensures decl == "<?xml" + body + "?>" && forall j: nat :: j < |body| + 5 ==> !OccursAt(decl, "?>", j)
  {
    hide Find;
    body := decl[5..|decl| - 2];
    assert decl == decl[..5] + body + decl[|decl| - 2..];
  }

  lemma BodyMakesDeclaration(body: Bytes)
    requires forall j: nat :: j < |body| + 5 ==> !OccursAt("<?xml" + body + "?>", "?>", j)
    ensures IsXmlDeclaration("<?xml" + body + "?>")
  {
    hide Find;
    var decl := "<?xml" + body + "?>";
    assert decl[..5] == "<?xml";
    assert decl[|decl| - 2..] == "?>";
    assert OccursAt(decl, "?>", |decl| - 2);
  }
}
