/** Request and reply on the non-blocking RPC channel: a write loop over partial writes, and a read loop
    up to the end-of-message marker (section 4.3 of RFC 6242). */
module RpcFraming {
  import opened Wrappers
  import opened ByteStrings
  import opened NotificationParser

  // ----- Writing -----

  /** What one write attempt answers: bytes taken, try again once the poll for writability is over, or an
      error of the write or of that poll. */
  datatype WriteResult = Wrote(n: nat) | WriteAgain | WriteFailed

  /** A channel takes no more than it is offered. */
  predicate WriteOk(offered: nat, r: WriteResult) {
    r.Wrote? ==> r.n <= offered
  }

  datatype WriteOutcome = Sent | WriteThrew | Unfinished

  const TRAILER: Bytes := "\n]]>]]>\n"

  function Framed(rpc: Bytes): Bytes {
    rpc + TRAILER
  }

  lemma FramedIs(rpc: Bytes)
    ensures Framed(rpc) == rpc + "\n" + "]]>]]>" + "\n"
  {
  }

  /** The peer finds the marker right behind the request and a newline, if the request holds none. */
  lemma MarkerBehindRequest(rpc: Bytes)
    requires NoEom(rpc + "\n")
    ensures Find(Framed(rpc), EOM, 0) == Some(|rpc| + 1)
  {
    hide Find;
    var data, front := Framed(rpc), rpc + "\n";
    assert data == front + (EOM + "\n");
    assert OccursAt(data, EOM, |front|);
    assert data[|front|] == ']';
    var r := Find(data, EOM, 0);
    if r.value < |front| {
      OccurrenceInFront(front, r.value);
      assert false;
    }
  }

  /** No marker begins in a text without marker that ends in a newline and runs on behind it. */
  lemma OccurrenceInFront(front: Bytes, i: nat)
    requires front != [] && front[|front| - 1] == '\n' && NoEom(front) && i < |front|
    ensures !OccursAt(front + (EOM + "\n"), EOM, i)
  {
    hide Find;
    var data := front + (EOM + "\n");
    if OccursAt(data, EOM, i) {
      if i + 6 <= |front| {
        OccursInFront(front, EOM + "\n", EOM, i);
      } else {
        OccurrenceShows(data, EOM, i, |front| - 1 - i);
      }
      assert false;
    }
  }

  /** Answers that are possible when they meet the loop: each is judged against what was still unwritten. */
  predicate Plausible(data: nat, written: nat, results: seq<WriteResult>)
    requires written <= data
    decreases |results|
  {
    results == [] || written == data ||
    (WriteOk(data - written, results[0]) &&
     Plausible(data, written + if results[0].Wrote? then results[0].n else 0, results[1..]))
  }

  /** The write loop of `send_rpc_non_blocking_func`: `wire` is what the channel took. */
  method SendFramed(rpc: Bytes, results: seq<WriteResult>) returns (outcome: WriteOutcome, wire: Bytes)
    requires Plausible(|Framed(rpc)|, 0, results)
    ensures outcome.Sent? <==> wire == Framed(rpc)
    ensures outcome.Sent? ==> wire == rpc + "\n" + "]]>]]>" + "\n"
    ensures |wire| <= |Framed(rpc)| && wire == Framed(rpc)[..|wire|]
    ensures outcome.WriteThrew? ==> WriteFailed in results
    ensures outcome.Unfinished? ==> WriteFailed !in results
  {
    FramedIs(rpc);
    hide TRAILER, Framed;
    var data := Framed(rpc);
    var totalWritten := 0;
    wire := [];
    var i := 0;
    while totalWritten < |data|
      invariant 0 <= i <= |results| && 0 <= totalWritten <= |data|
      invariant wire == data[..totalWritten]
      invariant Plausible(|data|, totalWritten, results[i..])
      invariant WriteFailed !in results[..i]
      decreases |results| - i
    {
      if i == |results| {
        assert results[..i] == results;
        return Unfinished, wire;
      }
      assert results[i..][1..] == results[i + 1..];
      match results[i] {
        case WriteAgain =>
        case WriteFailed =>
          return WriteThrew, wire;
        case Wrote(n) =>
          wire := wire + data[totalWritten..totalWritten + n];
          totalWritten := totalWritten + n;
      }
      assert results[..i + 1] == results[..i] + [results[i]];
      i := i + 1;
    }
    outcome := Sent;
  }

  // ----- Reading -----

  /** One turn of the read loop: the clock at its top, and what the read answers.  `Nothing` is no data
      yet; `waitFails` says that the wait for readiness that follows it throws. */
  datatype ReadResult = Data(bytes: Bytes, at: int) | Nothing(waitFails: bool) | ReadError

  datatype Turn = Turn(now: int, result: ReadResult)

  datatype ReadOutcome = Replied(response: Bytes) | ReadThrew | StillReading

  function Timeout(seconds: int): int {
    seconds * 1_000_000_000
  }

  /** `read_until_eom_non_blocking` with a finite timeout, from a state of its loop. */
  function ReadFrom(response: Bytes, lastData: int, seconds: int, turns: seq<Turn>): ReadOutcome
    decreases |turns|
  {
    if turns == [] then StillReading
    else
      var turn := turns[0];
      if turn.now >= lastData + Timeout(seconds) then ReadThrew
      else
        match turn.result
        case ReadError => ReadThrew
        case Nothing(waitFails) => if waitFails then ReadThrew else ReadFrom(response, lastData, seconds, turns[1..])
        case Data(bytes, at) =>
          if Find(response + bytes, EOM, 0).Some? then Replied(response + bytes)
          else ReadFrom(response + bytes, at, seconds, turns[1..])
  }

  method ReadUntilEom(start: int, seconds: int, turns: seq<Turn>) returns (outcome: ReadOutcome)
    requires seconds > 0
    ensures outcome == ReadFrom([], start, seconds, turns)
  {
    var response: Bytes := [];
    var lastData := start;
    var i := 0;
    while i < |turns|
      invariant 0 <= i <= |turns|
      invariant ReadFrom([], start, seconds, turns) == ReadFrom(response, lastData, seconds, turns[i..])
    {
      assert turns[i..][1..] == turns[i + 1..];
      var deadline := lastData + Timeout(seconds);
      if turns[i].now >= deadline {
        return ReadThrew;
      }
      match turns[i].result {
        case ReadError =>
          return ReadThrew;
        case Nothing(waitFails) =>
          if waitFails {
            return ReadThrew;
          }
        case Data(bytes, at) =>
          response := response + bytes;
          lastData := at;
          var eom := Find(response, EOM, 0);
          if eom.Some? {
            return Replied(response);
          }
      }
      i := i + 1;
    }
    outcome := StillReading;
  }

  /** The data a run of turns delivers. */
  function Delivered(turns: seq<Turn>): Bytes {
    if turns == [] then []
    else (if turns[0].result.Data? then turns[0].result.bytes else []) + Delivered(turns[1..])
  }

  /** When data last came in, before and during `turns`. */
  function LastData(start: int, turns: seq<Turn>): int
    decreases |turns|
  {
    if turns == [] then start
    else LastData(if turns[0].result.Data? then turns[0].result.at else start, turns[1..])
  }

  /** Nothing came for the whole timeout, counted in nanoseconds, or the read or the wait threw. */
  predicate Fails(seconds: int, lastData: int, turn: Turn) {
    || turn.now - lastData >= seconds * 1_000_000_000
    || turn.result.ReadError?
    || (turn.result.Nothing? && turn.result.waitFails)
  }

  predicate NoneFails(seconds: int, lastData: int, turns: seq<Turn>) {
    forall j :: 0 <= j < |turns| ==> !Fails(seconds, LastData(lastData, turns[..j]), turns[j])
  }

  lemma NoneFailsCons(seconds: int, lastData: int, turns: seq<Turn>)
    requires turns != []
    ensures var last := if turns[0].result.Data? then turns[0].result.at else lastData;
      NoneFails(seconds, lastData, turns)
      <==> !Fails(seconds, lastData, turns[0]) && NoneFails(seconds, last, turns[1..])
  {
    hide Fails;
    var last := if turns[0].result.Data? then turns[0].result.at else lastData;
    assert turns[..0] == [];
    forall j | 0 <= j < |turns| - 1 ensures LastData(lastData, turns[..j + 1]) == LastData(last, turns[1..][..j]) {
      assert turns[..j + 1][1..] == turns[1..][..j] && turns[..j + 1][0] == turns[0];
    }
    assert forall j :: 0 <= j < |turns| - 1 ==> turns[j + 1] == turns[1..][j];
    if !Fails(seconds, lastData, turns[0]) && NoneFails(seconds, last, turns[1..]) {
      forall j | 0 <= j < |turns| ensures !Fails(seconds, LastData(lastData, turns[..j]), turns[j]) {
        if j > 0 {
          assert turns[j] == turns[1..][j - 1];
          assert LastData(lastData, turns[..(j - 1) + 1]) == LastData(last, turns[1..][..j - 1]);
        }
      }
    }
    if NoneFails(seconds, lastData, turns) {
      assert !Fails(seconds, LastData(lastData, turns[..0]), turns[0]);
    }
  }

  lemma NothingFails(seconds: int, lastData: int)
    ensures NoneFails(seconds, lastData, [])
  {
  }

  /** A reply is the concatenation of the reads up to and including the first that completes an EOM: one
      read less shows none, and no turn up to then fails. */
  lemma {:induction false} ReplyIsShortest(response: Bytes, lastData: int, seconds: int, turns: seq<Turn>)
    returns (k: nat)
    requires NoEom(response) && ReadFrom(response, lastData, seconds, turns).Replied?
    ensures k < |turns| && turns[k].result.Data?
    ensures ReadFrom(response, lastData, seconds, turns).response
            == response + Delivered(turns[..k]) + turns[k].result.bytes
    ensures Find(ReadFrom(response, lastData, seconds, turns).response, EOM, 0).Some?
    ensures NoEom(response + Delivered(turns[..k])) && NoneFails(seconds, lastData, turns[..k + 1])
    decreases |turns|
  {
    hide Find, EOM, NoneFails;
    var turn := turns[0];
    NothingFails(seconds, if turn.result.Data? then turn.result.at else lastData);
    if turn.result.Data? && Find(response + turn.result.bytes, EOM, 0).Some? {
      k := 0;
      assert turns[..0] == [] && response + [] == response;
      NoneFailsCons(seconds, lastData, [turn]);
      assert turns[..1] == [turn] && [turn][1..] == [];
    } else {
      var more := if turn.result.Data? then turn.result.bytes else [];
      assert response + [] == response;
      var last := if turn.result.Data? then turn.result.at else lastData;
      var d := ReplyIsShortest(response + more, last, seconds, turns[1..]);
      k := d + 1;
      assert turns[..k][1..] == turns[1..][..d] && turns[..k][0] == turn;
      assert response + (more + Delivered(turns[1..][..d])) == response + more + Delivered(turns[1..][..d]);
      NoneFailsCons(seconds, lastData, turns[..k + 1]);
      assert turns[..k + 1][1..] == turns[1..][..d + 1];
    }
  }

  /** A read throws only in a turn that fails: on an error, or because nothing came for the whole timeout
      since the last data; and every turn before it went well and completed no EOM. */
  lemma {:induction false} ThrowHasACause(response: Bytes, lastData: int, seconds: int, turns: seq<Turn>)
    returns (k: nat)
    requires NoEom(response) && ReadFrom(response, lastData, seconds, turns).ReadThrew?
    ensures k < |turns| && Fails(seconds, LastData(lastData, turns[..k]), turns[k])
    ensures NoEom(response + Delivered(turns[..k]))
    ensures NoneFails(seconds, lastData, turns[..k])
    decreases |turns|
  {
    hide Find, EOM, NoneFails;
    var turn := turns[0];
    assert response + [] == response && turns[..0] == [];
    NothingFails(seconds, lastData);
    if Fails(seconds, lastData, turn) {
      k := 0;
    } else {
      var more := if turn.result.Data? then turn.result.bytes else [];
      var last := if turn.result.Data? then turn.result.at else lastData;
      var d := ThrowHasACause(response + more, last, seconds, turns[1..]);
      k := d + 1;
      assert turns[..k][1..] == turns[1..][..d] && turns[..k][0] == turn;
      assert response + (more + Delivered(turns[1..][..d])) == response + more + Delivered(turns[1..][..d]);
      NoneFailsCons(seconds, lastData, turns[..k]);
    }
  }

  /** The loop goes on exactly as long as no turn failed and no EOM came in. */
  lemma {:induction false} ReadsOnExactlyWhen(response: Bytes, lastData: int, seconds: int, turns: seq<Turn>)
    requires NoEom(response)
    ensures ReadFrom(response, lastData, seconds, turns).StillReading?
      <==> NoneFails(seconds, lastData, turns) && NoEom(response + Delivered(turns))
    decreases |turns|
  {
    hide Find, EOM, NoneFails;
    if turns == [] {
      assert NoneFails(seconds, lastData, []) by { NothingFails(seconds, lastData); }
      assert response + [] == response;
    } else {
      NoneFailsCons(seconds, lastData, turns);
      var turn := turns[0];
      var more := if turn.result.Data? then turn.result.bytes else [];
      var last := if turn.result.Data? then turn.result.at else lastData;
      assert response + [] == response;
      assert response + (more + Delivered(turns[1..])) == (response + more) + Delivered(turns[1..]);
      if Find(response + more, EOM, 0).Some? {
        FindInFront(response + more, Delivered(turns[1..]), EOM, 0);
      } else {
        ReadsOnExactlyWhen(response + more, last, seconds, turns[1..]);
      }
    }
  }

  /** Once decided, the outcome does not change. */
  lemma {:induction false} ReadIsFinal(response: Bytes, lastData: int, seconds: int, turns: seq<Turn>, n: nat)
    requires n <= |turns| && !ReadFrom(response, lastData, seconds, turns[..n]).StillReading?
    ensures ReadFrom(response, lastData, seconds, turns) == ReadFrom(response, lastData, seconds, turns[..n])
    decreases |turns|
  {
    hide Find, EOM;
    if n > 0 {
      var turn := turns[0];
      assert turns[..n][0] == turn && turns[..n][1..] == turns[1..][..n - 1];
      var more := if turn.result.Data? then turn.result.bytes else [];
      var last := if turn.result.Data? then turn.result.at else lastData;
      if !Fails(seconds, lastData, turn) && (turn.result.Data? ==> Find(response + more, EOM, 0).None?) {
        ReadIsFinal(if turn.result.Data? then response + more else response, last, seconds, turns[1..], n - 1);
      }
    }
  }

  /** A read replies exactly when the data of some of its first turns, none of which fails, hold an EOM. */
  lemma RepliesExactlyWhen(response: Bytes, lastData: int, seconds: int, turns: seq<Turn>)
    requires NoEom(response)
    ensures ReadFrom(response, lastData, seconds, turns).Replied?
      <==> exists n: nat ::
             n <= |turns| && NoneFails(seconds, lastData, turns[..n]) && !NoEom(response + Delivered(turns[..n]))
  {
    hide Find, EOM, ReadFrom, Delivered, LastData, Fails;
    if ReadFrom(response, lastData, seconds, turns).Replied? {
      var k := ReplyIsShortest(response, lastData, seconds, turns);
      DeliveredPush(turns, k);
      assert response + Delivered(turns[..k]) + turns[k].result.bytes
             == response + (Delivered(turns[..k]) + turns[k].result.bytes);
      assert NoneFails(seconds, lastData, turns[..k + 1]) && !NoEom(response + Delivered(turns[..k + 1]));
    }
    if n: nat :| n <= |turns| && NoneFails(seconds, lastData, turns[..n]) && !NoEom(response + Delivered(turns[..n])) {
      ReadsOnExactlyWhen(response, lastData, seconds, turns[..n]);
      if ReadFrom(response, lastData, seconds, turns[..n]).ReadThrew? {
        var k := ThrowHasACause(response, lastData, seconds, turns[..n]);
        assert false;
      }
      ReadIsFinal(response, lastData, seconds, turns, n);
    }
  }

  lemma {:induction false} DeliveredPush(turns: seq<Turn>, k: nat)
    requires k < |turns| && turns[k].result.Data?
    ensures Delivered(turns[..k + 1]) == Delivered(turns[..k]) + turns[k].result.bytes
  {
    if k == 0 {
      assert turns[..0] == [] && turns[..1] == [turns[0]];
      assert [turns[0]][1..] == [];
    } else {
      DeliveredPush(turns[1..], k - 1);
      assert turns[..k + 1][1..] == turns[1..][..k] && turns[..k][1..] == turns[1..][..k - 1];
    }
  }

  /** `s` up to and including its first EOM. */
  function UpToEom(s: Bytes): Bytes
    requires !NoEom(s)
  {
    s[..Find(s, EOM, 0).value + |EOM|]
  }

  /** However one byte stream is cut into reads, and whatever the pauses, two reads that reply agree up to
      and including the first EOM of the stream. */
  lemma FragmentationsAgree(stream: Bytes, start: int, start': int, seconds: int, turns: seq<Turn>, turns': seq<Turn>)
    requires ReadFrom([], start, seconds, turns).Replied? && ReadFrom([], start', seconds, turns').Replied?
    requires IsPrefix(Delivered(turns), stream) && IsPrefix(Delivered(turns'), stream)
    ensures var r := ReadFrom([], start, seconds, turns).response;
      var r' := ReadFrom([], start', seconds, turns').response;
      && !NoEom(stream) && !NoEom(r) && !NoEom(r')
      && UpToEom(r) == UpToEom(stream) == UpToEom(r')
  {
    hide Find, EOM, ReadFrom, Delivered, OccursAt;
    ReplyShowsFirstEom(stream, start, seconds, turns);
    ReplyShowsFirstEom(stream, start', seconds, turns');
  }

  lemma ReplyShowsFirstEom(stream: Bytes, start: int, seconds: int, turns: seq<Turn>)
    requires ReadFrom([], start, seconds, turns).Replied? && IsPrefix(Delivered(turns), stream)
    ensures var r := ReadFrom([], start, seconds, turns).response;
      !NoEom(stream) && !NoEom(r) && UpToEom(r) == UpToEom(stream)
  {
    hide Find, EOM, ReadFrom;
    EmptyHasNoEom();
    var k := ReplyIsShortest([], start, seconds, turns);
    var r := ReadFrom([], start, seconds, turns).response;
    assert [] + Delivered(turns[..k]) == Delivered(turns[..k]);
    DeliveredSplits(turns, k);
    assert IsPrefix(r, stream);
    assert stream == r + stream[|r|..];
    FindInFront(r, stream[|r|..], EOM, 0);
  }

  lemma EmptyHasNoEom()
    ensures NoEom([])
  {
  }

  lemma {:induction false} DeliveredSplits(turns: seq<Turn>, k: nat)
    requires k < |turns| && turns[k].result.Data?
    ensures IsPrefix(Delivered(turns[..k]) + turns[k].result.bytes, Delivered(turns))
  {
    if k == 0 {
      assert turns[..0] == [];
    } else {
      DeliveredSplits(turns[1..], k - 1);
      assert turns[..k][1..] == turns[1..][..k - 1] && turns[..k][0] == turns[0];
    }
  }
}
