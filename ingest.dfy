/** The ingestion endpoint: the bearer token taken from the Authorization
    header, the token lookup, and the checks that run, in order and with an
    early exit each, before one reading is stored. */
module Ingest {
  import opened Util
  import opened Readings

  // ----- the Authorization header -----

  /** PCRE's `\s` without Unicode support: space, tab, line feed, vertical
      tab, form feed and carriage return. */
  predicate IsSpace(c: char) {
    c == ' ' || c == '\t' || c == '\n' || c == 11 as char || c == 12 as char || c == '\r'
  }

  /** The pattern's literal part, as compared under the `i` flag. */
  const Keyword: string := "bearer"

  /** "Bearer" starts at `p`, in any mix of ASCII case. */
  predicate KeywordAt(h: string, p: nat) {
    p + |Keyword| <= |h| && Lower(h[p..p + |Keyword|]) == Keyword
  }

  /** End of the run of whitespace that starts at `q`: where a greedy `\s+`
      stops. */
  function SpaceEnd(h: string, q: nat): (k: nat)
    requires q <= |h|
    ensures q <= k <= |h|
    ensures forall i :: q <= i < k ==> IsSpace(h[i])
    ensures k == |h| || !IsSpace(h[k])
    decreases |h| - q
  {
    if q == |h| || !IsSpace(h[q]) then q else SpaceEnd(h, q + 1)
  }

  /** End of the run of characters other than line feed that starts at `q`:
      where a greedy `.*` stops. */
  function LineEnd(h: string, q: nat): (k: nat)
    requires q <= |h|
    ensures q <= k <= |h|
    ensures forall i :: q <= i < k ==> h[i] != '\n'
    ensures k == |h| || h[k] == '\n'
    decreases |h| - q
  {
    if q == |h| || h[q] == '\n' then q else LineEnd(h, q + 1)
  }

  /** `$` without the `m` and `D` flags: the end of the subject, or just
      before a line feed that ends it. */
  predicate EndAnchor(h: string, r: nat) {
    r == |h| || (r == |h| - 1 && h[r] == '\n')
  }

  /** The attempt of `Bearer\s+(.*)$` at position `p`, with greedy `\s+` and
      `.*`: the keyword, at least one whitespace character, then the rest of
      the line, which must end the header (or be followed only by a final
      line feed). The capture is what `.*` took. */
  function MatchAt(h: string, p: nat): Option<string> {
    if !KeywordAt(h, p) then None
    else
      var q := SpaceEnd(h, p + |Keyword|);
      if q == p + |Keyword| then None
      else
        var r := LineEnd(h, q);
        if EndAnchor(h, r) then Some(h[q..r]) else None
  }

  /** Backtracking never rescues a failed greedy attempt: if any split of
      the header into keyword, a shorter or equal whitespace run and a
      shorter or equal `.*` satisfies `$`, the greedy attempt already
      matched. So MatchAt is the regex engine's verdict at `p`. */
  lemma GreedyAttemptSuffices(h: string, p: nat, q: nat, r: nat)
    requires KeywordAt(h, p)
    requires p + |Keyword| < q <= SpaceEnd(h, p + |Keyword|)
    requires q <= r <= LineEnd(h, q)
    requires EndAnchor(h, r)
    ensures MatchAt(h, p).Some?
  {
    var qg := SpaceEnd(h, p + |Keyword|);
    var rg := LineEnd(h, qg);
    if r < |h| {
      // `.*` stopped at the final line feed
      assert h[r] == '\n';
      if r < qg {
        // that line feed lies in the whitespace run, so the run reaches the end
        assert qg == |h|;
      } else {
        // the line from q to r has no line feed, so the greedy line ends there too
        assert rg == r;
      }
    } else if qg < |h| {
      assert rg == |h|;
    }
  }

  /** The first match at or after position `p`. */
  function ExtractFrom(h: string, p: nat): (r: Option<string>)
    requires p <= |h|
    ensures r.None? <==> forall i :: p <= i <= |h| ==> MatchAt(h, i).None?
    ensures r.Some? ==> exists i :: p <= i <= |h| && MatchAt(h, i) == r &&
                                   forall j :: p <= j < i ==> MatchAt(h, j).None?
    decreases |h| - p
  {
    if MatchAt(h, p).Some? then MatchAt(h, p)
    else if p == |h| then None
    else ExtractFrom(h, p + 1)
  }

  /** `preg_match('/Bearer\s+(.*)$/i', $authHeader, $matches)` and
      `$matches[1]`: the pattern is not anchored, so the leftmost position
      where it matches wins. */
  function ExtractBearer(h: string): (r: Option<string>)
    ensures r.None? <==> forall i :: 0 <= i <= |h| ==> MatchAt(h, i).None?
    ensures r.Some? ==> exists i :: 0 <= i <= |h| && MatchAt(h, i) == r &&
                                   forall j :: 0 <= j < i ==> MatchAt(h, j).None?
  {
    ExtractFrom(h, 0)
  }

  /** A token never contains a line feed and never starts with whitespace:
      the whitespace after the keyword all goes to `\s+`. */
  lemma TokenShape(h: string, t: string)
    requires ExtractBearer(h) == Some(t)
    ensures '\n' !in t
    ensures t == [] || !IsSpace(t[0])
  {
    var i :| 0 <= i <= |h| && MatchAt(h, i) == Some(t);
    CaptureShape(h, i, t);
  }

  /** What one attempt captures is a line with no leading whitespace. */
  lemma CaptureShape(h: string, p: nat, t: string)
    requires MatchAt(h, p) == Some(t)
    ensures '\n' !in t
    ensures t == [] || !IsSpace(t[0])
  {
    var q := SpaceEnd(h, p + |Keyword|);
    var r := LineEnd(h, q);
    assert t == h[q..r];
    forall k | 0 <= k < |t|
      ensures t[k] != '\n'
    {
      assert t[k] == h[q + k];
    }
  }

  /** On a one-line header the token is everything after the whitespace
      that follows the first "Bearer" that has whitespace after it. */
  lemma OneLineToken(h: string, p: nat)
    requires '\n' !in h
    requires KeywordAt(h, p) && SpaceEnd(h, p + |Keyword|) > p + |Keyword|
    requires forall j :: 0 <= j < p ==> !(KeywordAt(h, j) && SpaceEnd(h, j + |Keyword|) > j + |Keyword|)
    ensures ExtractBearer(h) == Some(h[SpaceEnd(h, p + |Keyword|)..])
  {
    var q := SpaceEnd(h, p + |Keyword|);
    assert LineEnd(h, q) == |h|;
    assert EndAnchor(h, |h|);
    assert h[q..|h|] == h[q..];
    assert MatchAt(h, p) == Some(h[q..]);
  }

  /** A header written as "Bearer", in any case, then whitespace, then a
      token gives that token back, provided the token is a single line that
      does not itself start with whitespace. */
  lemma BearerRoundTrip(k: string, sep: string, t: string)
    requires Lower(k) == Keyword
    requires |sep| >= 1 && forall i :: 0 <= i < |sep| ==> IsSpace(sep[i])
    requires '\n' !in t && (t == [] || !IsSpace(t[0]))
    ensures ExtractBearer(k + sep + t) == Some(t)
  {
    var h := k + sep + t;
    var q := |k| + |sep|;
    assert h[0..|Keyword|] == k;
    assert KeywordAt(h, 0);
    assert SpaceEnd(h, |Keyword|) == q by {
      SpaceRun(h, |Keyword|, q);
    }
    assert h[q..] == t;
    assert LineEnd(h, q) == |h| by {
      assert forall i :: q <= i < |h| ==> h[i] == t[i - q];
    }
    assert EndAnchor(h, |h|);
    assert h[q..|h|] == t;
    assert MatchAt(h, 0) == Some(t);
  }

  /** SpaceEnd stops exactly at the end of a whitespace run. */
  lemma {:induction false} SpaceRun(h: string, q: nat, k: nat)
    requires q <= k <= |h|
    requires forall i :: q <= i < k ==> IsSpace(h[i])
    requires k == |h| || !IsSpace(h[k])
    ensures SpaceEnd(h, q) == k
    decreases k - q
  {
    if q < k {
      SpaceRun(h, q + 1, k);
    }
  }

  // ----- the token table -----

  /** A row of `api_tokens`. */
  datatype ApiToken = ApiToken(token: string, expiresAt: Timestamp)

  /** `SELECT id FROM api_tokens WHERE token = ? AND expires_at > NOW()`
      returns a row: some stored token equals `token` exactly and expires
      strictly after `now`. */
  function Authenticate(tokens: seq<ApiToken>, token: string, now: Timestamp): (ok: bool)
    ensures ok <==> exists i :: 0 <= i < |tokens| && tokens[i].token == token && tokens[i].expiresAt > now
  {
    if tokens == [] then false
    else (tokens[0].token == token && tokens[0].expiresAt > now) || Authenticate(tokens[1..], token, now)
  }

  /** A token accepted now was accepted at every earlier time, and a token
      is refused from its expiry time on. */
  lemma AuthenticateOverTime(tokens: seq<ApiToken>, token: string, earlier: Timestamp, now: Timestamp)
    requires earlier <= now
    ensures Authenticate(tokens, token, now) ==> Authenticate(tokens, token, earlier)
    ensures (forall i :: 0 <= i < |tokens| && tokens[i].token == token ==> tokens[i].expiresAt <= now)
      ==> !Authenticate(tokens, token, now)
  {
  }

  // ----- the request -----

  /** The five fields the insert reads from the decoded body. */
  datatype Submission = Submission(deviceId: string, sensorType: string, value: real, estatus: string, categoria: string)

  /** What `json_decode(..., true)` gives: nothing usable (invalid JSON or
      `null`), a falsy value (`[]`, `{}`, `false`, `0`, `""`, `"0"`), or a
      record carrying the five fields. */
  datatype Body = Undecodable | Falsy | Record(fields: Submission)

  /** What `$stmt->execute(...)` does with the insert: stores the row and
      returns true, returns false, or throws. */
  datatype InsertOutcome = Inserted | NotInserted | Thrown(message: string)

  /** The JSON object echoed back. */
  datatype Json = Message(text: string) | Error(text: string)

  datatype Reply = Reply(status: int, json: Json)

  /** The handler's answer: the header check, then the token check, then
      the body check, then the insert; each failing check answers at once. */
  function Respond(header: string, tokens: seq<ApiToken>, body: Body, now: Timestamp, outcome: InsertOutcome): (r: Reply)
    ensures r.status in {200, 400, 401, 500}
    ensures r.status == 200 <==> r.json.Message?
  {
    match ExtractBearer(header)
    case None => Reply(401, Error("Missing or invalid authorization token"))
    case Some(token) =>
      if !Authenticate(tokens, token, now) then Reply(401, Error("Invalid or expired token"))
      else if !body.Record? then Reply(400, Error("Invalid JSON"))
      else match outcome
        case Inserted => Reply(200, Message("Data stored successfully"))
        case NotInserted => Reply(500, Error("Failed to store data"))
        case Thrown(m) => Reply(500, Error(m))
  }

  /** Each failing check has its own answer: no token in the header and a
      refused token are both 401 with different errors, a body that is not a
      record is 400, and a failed insert is 500, with the exception's message
      when one was thrown. */
  lemma RespondAnswers(header: string, tokens: seq<ApiToken>, body: Body, now: Timestamp, outcome: InsertOutcome)
    ensures var r := Respond(header, tokens, body, now, outcome);
      && (ExtractBearer(header).None? ==> r == Reply(401, Error("Missing or invalid authorization token")))
      && (ExtractBearer(header).Some? && !Authenticate(tokens, ExtractBearer(header).value, now) ==>
            r == Reply(401, Error("Invalid or expired token")))
      && (ExtractBearer(header).Some? && Authenticate(tokens, ExtractBearer(header).value, now) ==>
            (!body.Record? ==> r == Reply(400, Error("Invalid JSON")))
            && (body.Record? && outcome == Inserted ==> r == Reply(200, Message("Data stored successfully")))
            && (body.Record? && outcome == NotInserted ==> r == Reply(500, Error("Failed to store data")))
            && (body.Record? && outcome.Thrown? ==> r == Reply(500, Error(outcome.message))))
  {
  }

  /** A reading is reported stored exactly when every check passed and the
      insert succeeded; every other answer is an error status. */
  lemma StoredIffAllChecksPass(header: string, tokens: seq<ApiToken>, body: Body, now: Timestamp, outcome: InsertOutcome)
    ensures Respond(header, tokens, body, now, outcome).status == 200 <==>
      ExtractBearer(header).Some? && Authenticate(tokens, ExtractBearer(header).value, now) &&
      body.Record? && outcome == Inserted
    ensures Respond(header, tokens, body, now, outcome).status in {200, 400, 401, 500}
    ensures Respond(header, tokens, body, now, outcome).json.Message? <==> Respond(header, tokens, body, now, outcome).status == 200
  {
  }

  /** The early exits: once a check fails, nothing that a later step reads
      can change the answer. */
  lemma EarlyExits(header: string, tokens: seq<ApiToken>, body: Body, now: Timestamp, outcome: InsertOutcome,
                   tokens': seq<ApiToken>, body': Body, now': Timestamp, outcome': InsertOutcome)
    ensures ExtractBearer(header).None? ==>
      Respond(header, tokens, body, now, outcome) == Respond(header, tokens', body', now', outcome')
    ensures ExtractBearer(header).Some? && !Authenticate(tokens, ExtractBearer(header).value, now) ==>
      Respond(header, tokens, body, now, outcome) == Respond(header, tokens, body', now, outcome')
    ensures ExtractBearer(header).Some? && Authenticate(tokens, ExtractBearer(header).value, now) && !body.Record? ==>
      (Respond(header, tokens, body, now, outcome) == Respond(header, tokens, body', now, outcome') <==> !body'.Record?)
  {
  }

  // ----- the reading table -----

  /** The row `INSERT INTO sensor_data ... VALUES (?, ?, ?, ?, ?, NOW())`
      adds: the five fields verbatim, the next id, and the server time. */
  function StoredRow(id: int, s: Submission, now: Timestamp): (r: Row)
    ensures r.id == id && r.createdAt == now
    ensures r.deviceId == s.deviceId && r.sensorType == s.sensorType && r.value == s.value
    ensures r.estatus == s.estatus && r.categoria == s.categoria
  {
    Row(id, s.deviceId, s.sensorType, s.value, s.estatus, s.categoria, now)
  }

  /** A row stored with an id above every existing id keeps the ids unique
      and is the latest reading of its device. */
  lemma StoredRowIsLatest(rows: seq<Row>, nextId: int, s: Submission, now: Timestamp)
    requires UniqueIds(rows) && forall i :: 0 <= i < |rows| ==> rows[i].id < nextId
    ensures UniqueIds(rows + [StoredRow(nextId, s, now)])
    ensures IsLatest(rows + [StoredRow(nextId, s, now)], StoredRow(nextId, s, now))
  {
    var row := StoredRow(nextId, s, now);
    var after := rows + [row];
    forall x | x in after && x.deviceId == row.deviceId
      ensures x.id <= row.id
    {
      if x != row {
        var i :| 0 <= i < |after| && after[i] == x;
        assert i < |rows|;
      }
    }
  }

  /** The `sensor_data` table with its AUTO_INCREMENT counter. */
  class ReadingTable {
    var rows: seq<Row>
    var nextId: int

    /** Ids are the primary key and every id was issued by the counter. */
    ghost predicate Valid()
      reads this
    {
      UniqueIds(rows) && forall i :: 0 <= i < |rows| ==> rows[i].id < nextId
    }

    constructor ()
      ensures Valid() && rows == [] && nextId == 1
    {
      rows := [];
      nextId := 1;
    }

    /** `insertSensorData`: when the statement succeeds, exactly one row is
        appended; no field is checked. */
    method InsertSensorData(s: Submission, now: Timestamp, outcome: InsertOutcome) returns (result: InsertOutcome)
      requires Valid()
      modifies this
      ensures Valid() && result == outcome
      ensures outcome == Inserted ==> rows == old(rows) + [StoredRow(old(nextId), s, now)] && nextId == old(nextId) + 1
      ensures outcome != Inserted ==> rows == old(rows) && nextId == old(nextId)
    {
      if outcome == Inserted {
        StoredRowIsLatest(rows, nextId, s, now);
        rows := rows + [StoredRow(nextId, s, now)];
        nextId := nextId + 1;
      }
      result := outcome;
    }

    /** The request handler of the ingestion endpoint. A 200 appends one row
        and advances the counter; every other answer leaves the table and the
        counter as they were. */
    method Handle(header: string, tokens: seq<ApiToken>, body: Body, now: Timestamp, outcome: InsertOutcome)
      returns (reply: Reply)
      requires Valid()
      modifies this
      ensures Valid()
      ensures reply == Respond(header, tokens, body, now, outcome)
      ensures reply.status == 200 ==>
                body.Record? && rows == old(rows) + [StoredRow(old(nextId), body.fields, now)] && nextId == old(nextId) + 1
      ensures reply.status != 200 ==> rows == old(rows) && nextId == old(nextId)
    {
      var token := ExtractBearer(header);
      if token.None? {
        return Reply(401, Error("Missing or invalid authorization token"));
      }
      if !Authenticate(tokens, token.value, now) {
        return Reply(401, Error("Invalid or expired token"));
      }
      if !body.Record? {
        return Reply(400, Error("Invalid JSON"));
      }
      var result := InsertSensorData(body.fields, now, outcome);
      match result {
        case Inserted => reply := Reply(200, Message("Data stored successfully"));
        case NotInserted => reply := Reply(500, Error("Failed to store data"));
        case Thrown(m) => reply := Reply(500, Error(m));
      }
    }
  }
}
