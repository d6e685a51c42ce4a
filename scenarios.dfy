/** What one tick does with form submissions under a three-column header. */
module Scenarios {
  import opened PyDict
  import opened Sheet
  import opened Announce
  import opened Poll

  const HEADER: seq<string> := ["Timestamp", "Nome no IC", "ID do Discord"]

  /** The response of one row under `HEADER`. */
  function Submission(stamp: string, name: string, id: string): Response
  {
    [("Timestamp", stamp), ("Nome no IC", name), ("ID do Discord", id)]
  }

  lemma HeaderKeysShown()
    ensures !Hidden("Timestamp") && !Hidden("Nome no IC") && !Hidden("ID do Discord")
  {
    assert |Lower("Timestamp")| == 9;
    assert Lower("Nome no IC")[0] == 'n';
    assert Lower("ID do Discord")[0] == 'i';
  }

  /** Every field of a submission is shown, and its id and name are the ones read for the mention. */
  lemma SubmissionFields(stamp: string, name: string, id: string)
    ensures var r := Submission(stamp, name, id);
      BroadcastFields(r) == r && Get(r, ID_KEY) == Some(id) && Get(r, NAME_KEY) == Some(name)
  {
    var r := Submission(stamp, name, id);
    HeaderKeysShown();
    assert BroadcastFields(r[2..]) == r[2..];
    assert BroadcastFields(r[1..]) == r[1..];
    assert r[1..][1..] == r[2..];
    assert |"Timestamp"| == 9 && |NAME_KEY| == 10 && |ID_KEY| == 13;
    assert Get(r[2..], ID_KEY) == Some(id);
    assert Get(r[1..], NAME_KEY) == Some(name);
  }

  lemma OneRowFetch(row: seq<string>)
    requires |row| == 3
    ensures FormResponses(Values([HEADER, row])) ==
      [[("Timestamp", row[0]), ("Nome no IC", row[1]), ("ID do Discord", row[2])]]
  {
    var values := [HEADER, row];
    var expected := [("Timestamp", row[0]), ("Nome no IC", row[1]), ("ID do Discord", row[2])];
    assert HEADER[0] != HEADER[1] && HEADER[0] != HEADER[2] && HEADER[1] != HEADER[2] by {
      assert |HEADER[0]| == 9 && |HEADER[1]| == 10 && |HEADER[2]| == 13;
    }
    RowResponseDistinctHeaders(HEADER, row);
    var rr := RowResponse(HEADER, row);
    assert |rr| == 3 && rr[0] == expected[0] && rr[1] == expected[1] && rr[2] == expected[2];
    assert rr == expected;
    assert |FormResponses(Values(values))| == 1;
    assert FormResponses(Values(values))[0] == rr;
  }

  /** A fetch holding a single response, polled with an empty ledger and no
      failing send, announces that response and commits it. */
  lemma OneNewRow(f: Fetch, r: Response)
    requires FormResponses(f) == [r]
    ensures TickSpec({}, true, true, f, []) == Run({r}, Announcement(r), Completed)
  {
    var none: seq<Response> := [];
    assert [r][1..] == none;
    assert NewRows({}, [r]) == [r];
    assert AnnounceAll([r]) == Announcement(r);
    assert Elems([r]) == {r};
    TickAllDelivered({}, f);
  }

  /** The first poll of a sheet holding one valid row. */
  lemma ValidSubmissionFirstTick(stamp: string, name: string, id: string)
    requires id != [] && AllDigits(id) && name != []
    ensures var f := Values([HEADER, [stamp, name, id]]);
      var r := Submission(stamp, name, id);
      TickSpec({}, true, true, f, []) == Run({r}, [Broadcast(r, r), Mention(r, id, name)], Completed)
  {
    var f := Values([HEADER, [stamp, name, id]]);
    var r := Submission(stamp, name, id);
    OneRowFetch([stamp, name, id]);
    OneNewRow(f, r);
    SubmissionFields(stamp, name, id);
    var a := Announcement(r);
    assert |a| == 2 && a[0] == Broadcast(r, r) && a[1] == Mention(r, id, name);
    assert a == [Broadcast(r, r), Mention(r, id, name)];
  }

  /** A row with a non-empty all-digit id and a non-empty name, such as
      `("2024-01-01T00:00Z", "Ana", "123456")`: on the first poll one
      broadcast listing every field (the id included) and one mention
      addressed to that id and name, and the response is committed; polling
      the same sheet again sends nothing. */
  lemma ValidSubmissionScenario(stamp: string, name: string, id: string, outcomes: seq<bool>)
    requires id != [] && AllDigits(id) && name != []
    ensures var f := Values([HEADER, [stamp, name, id]]);
      var r := Submission(stamp, name, id);
      && TickSpec({}, true, true, f, []) ==
           Run({r}, [Broadcast(r, r), Mention(r, id, name)], Completed)
      && TickSpec({r}, true, true, f, outcomes) == Run({r}, [], Completed)
  {
    ValidSubmissionFirstTick(stamp, name, id);
    RepeatTickSilent({}, Values([HEADER, [stamp, name, id]]), [], outcomes);
  }

  /** A valid row whose mention raises: the broadcast has gone out but the
      row is not committed, so the next poll broadcasts it again, followed by
      the mention. The answer is then announced twice in the main channel. */
  lemma MentionFailureRebroadcasts(stamp: string, name: string, id: string)
    requires id != [] && AllDigits(id) && name != []
    ensures var f := Values([HEADER, [stamp, name, id]]);
      var r := Submission(stamp, name, id);
      var first := TickSpec({}, true, true, f, [true, false]);
      && first == Run({}, [Broadcast(r, r)], SendFailed(r))
      && TickSpec(first.seen, true, true, f, []) == Run({r}, [Broadcast(r, r), Mention(r, id, name)], Completed)
  {
    var f := Values([HEADER, [stamp, name, id]]);
    var r := Submission(stamp, name, id);
    OneRowFetch([stamp, name, id]);
    assert FormResponses(f) == [r];
    SubmissionFields(stamp, name, id);
    assert MentionEligible(r);
    assert Delivers([true, false], 0) && !Delivers([true, false], 1);
    assert Process({}, [r], [true, false], 0) == Run({}, [BroadcastOf(r)], SendFailed(r));
    ValidSubmissionFirstTick(stamp, name, id);
  }

  /** A row with an empty id, such as `("2024-01-01T00:01Z", "Bruno", "")`:
      one broadcast and no mention, and the response is still committed. */
  lemma EmptyIdScenario(stamp: string, name: string)
    ensures var f := Values([HEADER, [stamp, name, ""]]);
      var r := Submission(stamp, name, "");
      TickSpec({}, true, true, f, []) == Run({r}, [Broadcast(r, r)], Completed)
  {
    var f := Values([HEADER, [stamp, name, ""]]);
    var r := Submission(stamp, name, "");
    OneRowFetch([stamp, name, ""]);
    assert FormResponses(f) == [r];
    SubmissionFields(stamp, name, "");
    assert !MentionEligible(r);
    IneligibleStillAnnounced({}, r, []);
  }
}
