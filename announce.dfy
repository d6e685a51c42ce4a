/** The row-to-message rules: which fields the broadcast shows, and when a
    response earns a mention. Message text, embeds and the random per-line
    marker are not modelled; a send carries the data it is rendered from. */
module Announce {
  import opened PyDict

  /** The column read for the recipient's numeric user id. */
  const ID_KEY: string := "ID do Discord"
  /** The column read for the recipient's in-game name. */
  const NAME_KEY: string := "Nome no IC"
  /** A field whose lower-cased key equals this is left out of the broadcast. */
  const HIDDEN_KEY: string := "discord id"

  /** `str.lower` on one character, ASCII letters only. */
  function LowerChar(c: char): char
  {
    if 'A' <= c <= 'Z' then (c as int + 32) as char else c
  }

  function Lower(s: string): string
  {
    seq(|s|, i requires 0 <= i < |s| => LowerChar(s[i]))
  }

  predicate Hidden(key: string)
  {
    Lower(key) == HIDDEN_KEY
  }

  /** The fields the broadcast lists, one line each. */
  function BroadcastFields(r: seq<Item>): (fs: seq<Item>)
    ensures forall p :: p in fs <==> p in r && !Hidden(p.0)
    ensures |fs| <= |r|
  {
    if r == [] then []
    else (if Hidden(r[0].0) then [] else [r[0]]) + BroadcastFields(r[1..])
  }

  /** The filter keeps row order: it distributes over concatenation. */
  lemma {:induction false} BroadcastFieldsAppend(a: seq<Item>, b: seq<Item>)
    ensures BroadcastFields(a + b) == BroadcastFields(a) + BroadcastFields(b)
  {
    if a != [] {
      var head := if Hidden(a[0].0) then [] else [a[0]];
      assert (a + b)[0] == a[0] && (a + b)[1..] == a[1..] + b;
      assert BroadcastFields(a + b) == head + BroadcastFields(a[1..] + b);
      BroadcastFieldsAppend(a[1..], b);
      assert BroadcastFields(a) == head + BroadcastFields(a[1..]);
      assert head + (BroadcastFields(a[1..]) + BroadcastFields(b))
          == (head + BroadcastFields(a[1..])) + BroadcastFields(b);
    } else {
      assert a + b == b;
    }
  }

  /** The filter matches the key case-insensitively, and the column that
      carries the mention's user id is not the one it hides: that id is shown
      in the broadcast. */
  lemma HiddenKeys()
    ensures Hidden("Discord ID") && Hidden("DISCORD id")
    ensures !Hidden(ID_KEY) && !Hidden(NAME_KEY)
  {
    assert Lower("Discord ID") == HIDDEN_KEY;
    assert Lower("DISCORD id") == HIDDEN_KEY;
    assert Lower(ID_KEY)[0] == 'i';
    assert Lower(NAME_KEY)[0] == 'n';
  }

  /** `str.isdigit`, ASCII digits only. */
  predicate AllDigits(s: string)
  {
    forall i :: 0 <= i < |s| ==> '0' <= s[i] <= '9'
  }

  /** `discord_id and discord_id.isdigit() and nome_no_ic`, where both come
      from `response.get`. */
  predicate MentionEligible(r: seq<Item>)
  {
    && Get(r, ID_KEY).Some? && Get(r, ID_KEY).value != [] && AllDigits(Get(r, ID_KEY).value)
    && Get(r, NAME_KEY).Some? && Get(r, NAME_KEY).value != []
  }

  /** A response is eligible exactly when it has an id field that is non-empty
      and all digits, and a name field that is non-empty. */
  lemma MentionEligibleFields(r: seq<Item>)
    requires DistinctKeys(r)
    ensures MentionEligible(r) <==>
      exists i, j :: 0 <= i < |r| && 0 <= j < |r| && r[i].0 == ID_KEY && r[j].0 == NAME_KEY &&
        r[i].1 != [] && AllDigits(r[i].1) && r[j].1 != []
  {
    GetSpec(r, ID_KEY);
    GetSpec(r, NAME_KEY);
    if MentionEligible(r) {
      var i :| 0 <= i < |r| && r[i] == (ID_KEY, Get(r, ID_KEY).value);
      var j :| 0 <= j < |r| && r[j] == (NAME_KEY, Get(r, NAME_KEY).value);
      assert r[i].0 == ID_KEY && r[j].0 == NAME_KEY;
    }
    if exists i, j :: 0 <= i < |r| && 0 <= j < |r| && r[i].0 == ID_KEY && r[j].0 == NAME_KEY &&
        r[i].1 != [] && AllDigits(r[i].1) && r[j].1 != []
    {
      var i, j :| 0 <= i < |r| && 0 <= j < |r| && r[i].0 == ID_KEY && r[j].0 == NAME_KEY &&
        r[i].1 != [] && AllDigits(r[i].1) && r[j].1 != [];
      assert Get(r, ID_KEY) == Some(r[i].1);
      assert Get(r, NAME_KEY) == Some(r[j].1);
    }
  }

  /** An id that is empty or holds a non-digit suppresses the mention, whatever the name. */
  lemma BadIdNoMention(r: seq<Item>, id: string, name: string)
    requires DistinctKeys(r)
    requires (ID_KEY, id) in r
    requires id == [] || exists i :: 0 <= i < |id| && !('0' <= id[i] <= '9')
    ensures !MentionEligible(r)
  {
    GetSpec(r, ID_KEY);
    var i :| 0 <= i < |r| && r[i] == (ID_KEY, id);
    assert Get(r, ID_KEY) == Some(id);
  }

  /** A message the tick sends. `source` is the response it is rendered from. */
  datatype Send =
    | Broadcast(source: seq<Item>, fields: seq<Item>)
    | Mention(source: seq<Item>, id: string, name: string)

  function BroadcastOf(r: seq<Item>): Send
  {
    Broadcast(r, BroadcastFields(r))
  }

  function MentionOf(r: seq<Item>): Send
    requires MentionEligible(r)
  {
    Mention(r, Get(r, ID_KEY).value, Get(r, NAME_KEY).value)
  }

  /** Everything a new response is announced with when no send fails: the
      broadcast first, then the mention when the response is eligible. */
  function Announcement(r: seq<Item>): (a: seq<Send>)
    ensures 1 <= |a| <= 2 && a[0] == Broadcast(r, BroadcastFields(r))
    ensures |a| == 2 <==> MentionEligible(r)
    ensures |a| == 2 ==> a[1] == Mention(r, Get(r, ID_KEY).value, Get(r, NAME_KEY).value)
  {
    [BroadcastOf(r)] + if MentionEligible(r) then [MentionOf(r)] else []
  }

  /** In terms of the response's own fields: it is always broadcast first; a
      mention follows exactly when it has a non-empty all-digit id field and a
      non-empty name field, and that mention is addressed to those two values. */
  lemma AnnouncementFields(r: seq<Item>)
    requires DistinctKeys(r)
    ensures Announcement(r)[0].Broadcast? && Announcement(r)[0].source == r
    ensures forall p :: p in Announcement(r)[0].fields <==> p in r && !Hidden(p.0)
    ensures |Announcement(r)| == 2 <==>
      exists i, j :: 0 <= i < |r| && 0 <= j < |r| && r[i].0 == ID_KEY && r[j].0 == NAME_KEY &&
        r[i].1 != [] && AllDigits(r[i].1) && r[j].1 != []
    ensures forall i, j ::
      0 <= i < |r| && 0 <= j < |r| && r[i].0 == ID_KEY && r[j].0 == NAME_KEY && |Announcement(r)| == 2
      ==> Announcement(r)[1] == Mention(r, r[i].1, r[j].1)
  {
    MentionEligibleFields(r);
    GetSpec(r, ID_KEY);
    GetSpec(r, NAME_KEY);
  }
}
