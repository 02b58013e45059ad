/**
 The signup service of scripts/mock_sponsor_service.py. Every request is one
 atomic step on the two tables, so a run is a sequence of requests in any order.
 */
module SponsorService {
  import opened Text
  import opened SponsorToken

  const MAX_SOURCE_LENGTH := 100
  const TOKEN_TTL_SECONDS := 300

  datatype Account = Account(source: Option<string>, createdAt: int)

  /** The tables accounts and consumed_tokens, by primary key. */
  datatype Db = Db(accounts: map<string, Account>, consumed: map<string, int>)

  const EMPTY_DB := Db(map[], map[])

  datatype Response =
    | Ok
    | MagicLink(token: string)
    | Found(email: string, source: Option<string>, createdAt: int)
    | BadRequest
    | NotFound

  /** Clock readings and the members of the request's JSON or query; a missing member is None. */
  datatype Request =
    | SignupRequest(rawEmail: Option<string>, rawVia: Option<string>, now: int, timeNs: int)
    | ConfirmRequest(token: Option<string>, now: int, createdAt: int, consumedAt: int)
    | AccountRequest(query: string)

  // ---------- signup ----------

  function SourceOf(rawVia: Option<string>): Option<string> {
    match rawVia
    case None => None
    case Some(v) => if Strip(v) == "" then None else Some(Strip(v))
  }

  predicate GoodSource(source: Option<string>) {
    source.None? || (|source.value| <= MAX_SOURCE_LENGTH && IsAscii(source.value))
  }

  function SignupPayload(c: Codec, email: string, source: Option<string>, now: int, timeNs: int): Payload {
    Payload(Some(email), source, Some(c.nonceOf(email, timeNs)), Some(now + TOKEN_TTL_SECONDS))
  }

  function Signup(c: Codec, rawEmail: Option<string>, rawVia: Option<string>, now: int, timeNs: int): Response {
    if rawEmail.None? then BadRequest
    else
      var email, source := Lower(Strip(rawEmail.value)), SourceOf(rawVia);
      if '@' !in email || !GoodSource(source) then BadRequest
      else MagicLink(EncodeToken(c, SignupPayload(c, email, source, now, timeNs)))
  }

  lemma LowerKeepsAt(s: string)
    ensures '@' in Lower(s) <==> '@' in s
  {
    if '@' in s {
      var i :| 0 <= i < |s| && s[i] == '@';
      assert Lower(s)[i] == '@';
    }
  }

  /** A link is sent exactly when the address as typed has an "@" and the trimmed source is short ASCII or absent. */
  lemma SignupAcceptedIff(c: Codec, rawEmail: Option<string>, rawVia: Option<string>, now: int, timeNs: int)
    ensures Signup(c, rawEmail, rawVia, now, timeNs).MagicLink? <==>
            && rawEmail.Some? && '@' in rawEmail.value
            && (rawVia.Some? ==> |Strip(rawVia.value)| <= 100 && IsAscii(Strip(rawVia.value)))
    ensures var response := Signup(c, rawEmail, rawVia, now, timeNs); response.MagicLink? || response == BadRequest
  {
    hide Strip, Lower, EncodeToken;
    if rawEmail.Some? {
      StripKeeps(rawEmail.value, '@');
      LowerKeepsAt(Strip(rawEmail.value));
    }
  }

  // ---------- confirm ----------

  // The payload a confirm request acts on, or None when it is refused before the tables change.
  function Accepts(c: Codec, db: Db, token: Option<string>, now: int): Option<Payload> {
    if token.None? then None
    else
      match DecodeToken(c, token.value, now)
      case Refused(_) => None
      case Accepted(p) =>
        if p.nonce.None? || p.nonce.value in db.consumed || p.email.None? then None else Some(p)
  }

  // INSERT OR IGNORE keeps the row of an e-mail address that already has one.
  function InsertOrIgnore(accounts: map<string, Account>, email: string, row: Account): map<string, Account> {
    if email in accounts then accounts else accounts[email := row]
  }

  function Record(db: Db, p: Payload, createdAt: int, consumedAt: int): Db
    requires p.nonce.Some? && p.email.Some?
  {
    Db(InsertOrIgnore(db.accounts, p.email.value, Account(p.via, createdAt)),
       db.consumed[p.nonce.value := consumedAt])
  }

  function Lookup(db: Db, query: string): Response {
    var email := Lower(query);
    if email in db.accounts then Found(email, db.accounts[email].source, db.accounts[email].createdAt) else NotFound
  }

  function Step(c: Codec, db: Db, r: Request): (Db, Response) {
    match r
    case SignupRequest(rawEmail, rawVia, now, timeNs) => (db, Signup(c, rawEmail, rawVia, now, timeNs))
    case ConfirmRequest(token, now, createdAt, consumedAt) =>
      (match Accepts(c, db, token, now)
       case None => (db, BadRequest)
       case Some(p) => (Record(db, p, createdAt, consumedAt), Ok))
    case AccountRequest(query) => (db, Lookup(db, query))
  }

  /** The service object: one request handler a request, each on the tables the last one left. */
  class Service {
    const codec: Codec
    var accounts: map<string, Account>
    var consumed: map<string, int>

    constructor (codec: Codec)
      ensures this.codec == codec && Tables() == EMPTY_DB
    {
      this.codec := codec;
      accounts, consumed := map[], map[];
    }

    ghost function Tables(): Db
      reads this
    {
      Db(accounts, consumed)
    }

    /** GET /v1/confirm: the statements of one transaction; whatever raises leaves both tables as they were. */
    method Confirm(token: Option<string>, now: int, createdAt: int, consumedAt: int) returns (response: Response)
      modifies this
      ensures (Tables(), response) == Step(codec, old(Tables()), ConfirmRequest(token, now, createdAt, consumedAt))
    {
      if token.None? {
        return BadRequest;
      }
      match DecodeToken(codec, token.value, now) {
        case Refused(_) => return BadRequest;
        case Accepted(payload) =>
          if payload.nonce.None? || payload.nonce.value in consumed {
            return BadRequest;
          }
          if payload.email.None? {
            return BadRequest;
          }
          if payload.email.value !in accounts {
            accounts := accounts[payload.email.value := Account(payload.via, createdAt)];
          }
          consumed := consumed[payload.nonce.value := consumedAt];
          return Ok;
      }
    }

    method SignupFor(rawEmail: Option<string>, rawVia: Option<string>, now: int, timeNs: int)
      returns (response: Response)
      ensures (Tables(), response) == Step(codec, old(Tables()), SignupRequest(rawEmail, rawVia, now, timeNs))
    {
      response := Signup(codec, rawEmail, rawVia, now, timeNs);
    }

    method AccountOf(query: string) returns (response: Response)
      ensures (Tables(), response) == Step(codec, old(Tables()), AccountRequest(query))
    {
      response := Lookup(Db(accounts, consumed), query);
    }
  }

  // ---------- runs ----------

  function Run(c: Codec, db: Db, rs: seq<Request>): Db
    decreases |rs|
  {
    if rs == [] then db else Run(c, Step(c, db, rs[0]).0, rs[1..])
  }

  // The payloads of the confirms that succeeded, in order.
  function Confirmed(c: Codec, db: Db, rs: seq<Request>): seq<Payload>
    decreases |rs|
  {
    if rs == [] then [] else ConfirmedBy(c, db, rs[0]) + Confirmed(c, Step(c, db, rs[0]).0, rs[1..])
  }

  function ConfirmedBy(c: Codec, db: Db, r: Request): seq<Payload> {
    if r.ConfirmRequest? && Accepts(c, db, r.token, r.now).Some? then [Accepts(c, db, r.token, r.now).value] else []
  }

  /** The via of the first confirmed token for an e-mail address. */
  function FirstVia(log: seq<Payload>, email: string): Option<string> {
    if log == [] then None
    else if log[0].email == Some(email) then log[0].via
    else FirstVia(log[1..], email)
  }

  ghost predicate Names(log: seq<Payload>, email: string) {
    exists i :: 0 <= i < |log| && log[i].email == Some(email)
  }

  ghost predicate Used(log: seq<Payload>, nonce: string) {
    exists i :: 0 <= i < |log| && log[i].nonce == Some(nonce)
  }

  /** What the tables say is what the confirmed tokens say. */
  ghost predicate Explains(log: seq<Payload>, db: Db) {
    && (forall i :: 0 <= i < |log| ==> log[i].email.Some? && log[i].nonce.Some?)
    && (forall i, j :: 0 <= i < j < |log| ==> log[i].nonce != log[j].nonce)
    && (forall n :: n in db.consumed <==> Used(log, n))
    && (forall e :: e in db.accounts <==> Names(log, e))
    && (forall e :: e in db.accounts ==> db.accounts[e].source == FirstVia(log, e))
  }

  lemma {:induction false} FirstViaAppend(log: seq<Payload>, p: Payload, email: string)
    ensures FirstVia(log + [p], email) ==
            if Names(log, email) then FirstVia(log, email) else if p.email == Some(email) then p.via else None
    decreases log
  {
    if log != [] {
      assert (log + [p])[1..] == log[1..] + [p];
      FirstViaAppend(log[1..], p, email);
      if Names(log[1..], email) {
        var i :| 0 <= i < |log[1..]| && log[1..][i].email == Some(email);
        assert log[i + 1].email == Some(email);
      }
      if Names(log, email) && log[0].email != Some(email) {
        var i :| 0 <= i < |log| && log[i].email == Some(email);
        assert log[1..][i - 1].email == Some(email);
      }
    }
  }

  lemma NamesAppend(log: seq<Payload>, p: Payload, e: string)
    ensures Names(log + [p], e) <==> Names(log, e) || p.email == Some(e)
    ensures Used(log + [p], e) <==> Used(log, e) || p.nonce == Some(e)
  {
    var log' := log + [p];
    if Names(log, e) {
      var i :| 0 <= i < |log| && log[i].email == Some(e);
      assert log'[i].email == Some(e);
    }
    if Used(log, e) {
      var i :| 0 <= i < |log| && log[i].nonce == Some(e);
      assert log'[i].nonce == Some(e);
    }
    assert log'[|log|] == p;
  }

  /** One more accepted confirm keeps the tables explained. */
  lemma RecordKeepsExplained(log: seq<Payload>, db: Db, p: Payload, createdAt: int, consumedAt: int)
    requires Explains(log, db)
    requires p.nonce.Some? && p.email.Some? && p.nonce.value !in db.consumed
    ensures Explains(log + [p], Record(db, p, createdAt, consumedAt))
  {
    hide Names, Used, FirstVia;
    var db' := Record(db, p, createdAt, consumedAt);
    forall e
      ensures e in db'.accounts <==> Names(log + [p], e)
      ensures e in db'.consumed <==> Used(log + [p], e)
      ensures e in db'.accounts ==> db'.accounts[e].source == FirstVia(log + [p], e)
    {
      NamesAppend(log, p, e);
      FirstViaAppend(log, p, e);
    }
    NonceIsNew(log, p.nonce.value);
  }

  lemma NonceIsNew(log: seq<Payload>, n: string)
    requires !Used(log, n)
    ensures forall i :: 0 <= i < |log| ==> log[i].nonce != Some(n)
  {
  }

  lemma {:induction false} RunKeepsExplained(c: Codec, log: seq<Payload>, db: Db, rs: seq<Request>)
    requires Explains(log, db)
    ensures Explains(log + Confirmed(c, db, rs), Run(c, db, rs))
    decreases |rs|
  {
    hide Explains, DecodeToken, Signup, Lookup, Record;
    if rs == [] {
      assert log + [] == log;
    } else {
      var added, db1 := ConfirmedBy(c, db, rs[0]), Step(c, db, rs[0]).0;
      if added == [] {
        assert db1 == db && log + added == log;
      } else {
        RecordKeepsExplained(log, db, added[0], rs[0].createdAt, rs[0].consumedAt);
        assert added == [added[0]];
      }
      RunKeepsExplained(c, log + added, db1, rs[1..]);
      assert log + added + Confirmed(c, db1, rs[1..]) == log + (added + Confirmed(c, db1, rs[1..]));
    }
  }

  /**
   Over every run from empty tables: no nonce is consumed twice, the consumed nonces and the account e-mails are
   those of the confirmed tokens, and every account has the source of the first token confirmed for it.
   */
  lemma TablesExplainedByConfirms(c: Codec, rs: seq<Request>)
    ensures Explains(Confirmed(c, EMPTY_DB, rs), Run(c, EMPTY_DB, rs))
  {
    hide Run, Confirmed;
    assert Explains([], EMPTY_DB);
    RunKeepsExplained(c, [], EMPTY_DB, rs);
    hide Explains;
    assert [] + Confirmed(c, EMPTY_DB, rs) == Confirmed(c, EMPTY_DB, rs);
  }

  /** Rows are only ever added: an account's source and creation time never change, a used nonce stays used. */
  lemma {:induction false} RowsAreImmutable(c: Codec, db: Db, rs: seq<Request>)
    ensures forall e :: e in db.accounts ==>
              e in Run(c, db, rs).accounts && Run(c, db, rs).accounts[e] == db.accounts[e]
    ensures forall n :: n in db.consumed ==>
              n in Run(c, db, rs).consumed && Run(c, db, rs).consumed[n] == db.consumed[n]
    decreases |rs|
  {
    hide DecodeToken, Signup, Lookup;
    if rs != [] {
      var db1 := Step(c, db, rs[0]).0;
      RowsAreImmutable(c, db1, rs[1..]);
    }
  }

  /** A request that is not answered Ok leaves both tables unchanged; a confirm answered Ok uses up a fresh nonce. */
  lemma OnlyAcceptedConfirmsWrite(c: Codec, db: Db, r: Request)
    ensures Step(c, db, r).0 != db <==> r.ConfirmRequest? && Step(c, db, r).1 == Ok
    ensures Step(c, db, r).1 == Ok <==> r.ConfirmRequest? && Accepts(c, db, r.token, r.now).Some?
  {
    hide DecodeToken, EncodeToken;
    if r.ConfirmRequest? && Accepts(c, db, r.token, r.now).Some? {
      var p := Accepts(c, db, r.token, r.now).value;
      assert p.nonce.value in Step(c, db, r).0.consumed;
    }
  }

  // ---------- one signup, from link to account ----------

  lemma LowerIsIdempotent(s: string)
    ensures Lower(Lower(s)) == Lower(s)
  {
    assert forall i :: 0 <= i < |s| ==> LowerChar(LowerChar(s[i])) == LowerChar(s[i]);
  }

  /** On any tables and at any time, the link of a signup is confirmed exactly when it is neither expired nor used. */
  lemma LinkConfirmsIff(c: Codec, rawEmail: string, rawVia: Option<string>, t: int, timeNs: int, db: Db, r: Request)
    requires Faithful(c)
    requires Signup(c, Some(rawEmail), rawVia, t, timeNs).MagicLink?
    requires r.ConfirmRequest? && r.token == Some(Signup(c, Some(rawEmail), rawVia, t, timeNs).token)
    ensures Step(c, db, r).1 == Ok <==>
            r.now <= t + 300 && c.nonceOf(Lower(Strip(rawEmail)), timeNs) !in db.consumed
  {
    hide DecodeToken, EncodeToken, Strip, Lower;
    TokenRoundTrip(c, SignupPayload(c, Lower(Strip(rawEmail)), SourceOf(rawVia), t, timeNs), r.now);
  }

  /**
   The promise of the magic link, whatever other requests run before and after the confirm: within its lifetime the
   link confirms once; from then on the account is there, with the signup's source unless it existed before; and
   the same link is refused without any change for ever after.
   */
  lemma MagicLinkWorksExactlyOnce(
    c: Codec, rawEmail: string, rawVia: Option<string>, t: int, timeNs: int,
    db: Db, now: int, createdAt: int, consumedAt: int, later: seq<Request>, r: Request)
    requires Faithful(c)
    requires Signup(c, Some(rawEmail), rawVia, t, timeNs).MagicLink?
    requires now <= t + 300
    requires c.nonceOf(Lower(Strip(rawEmail)), timeNs) !in db.consumed
    requires r.ConfirmRequest? && r.token == Some(Signup(c, Some(rawEmail), rawVia, t, timeNs).token)
    ensures var email := Lower(Strip(rawEmail));
            var link := Some(Signup(c, Some(rawEmail), rawVia, t, timeNs).token);
            var (db1, answer) := Step(c, db, ConfirmRequest(link, now, createdAt, consumedAt));
            var db2 := Run(c, db1, later);
            && answer == Ok
            && Lookup(db2, email) == Found(email,
                 if email in db.accounts then db.accounts[email].source
                 else if rawVia.None? || Strip(rawVia.value) == "" then None else Some(Strip(rawVia.value)),
                 if email in db.accounts then db.accounts[email].createdAt else createdAt)
            && (var nonce := c.nonceOf(email, timeNs);
                nonce in db2.consumed && db2.consumed[nonce] == consumedAt)
            && Step(c, db2, r) == (db2, BadRequest)
  {
    hide DecodeToken, EncodeToken, Run;
    var email := Lower(Strip(rawEmail));
    var p := SignupPayload(c, email, SourceOf(rawVia), t, timeNs);
    TokenRoundTrip(c, p, now);
    TokenRoundTrip(c, p, r.now);
    var db1 := Step(c, db, ConfirmRequest(Some(EncodeToken(c, p)), now, createdAt, consumedAt)).0;
    RowsAreImmutable(c, db1, later);
    LowerIsIdempotent(Strip(rawEmail));
    assert p.nonce.value in db1.consumed && email in db1.accounts;
  }

  /**
   After a signup, its confirm and any later requests, the account is found under exactly the texts that equal the
   trimmed address up to the case of letters, and it is stored under the one without capitals.
   */
  lemma AccountFoundInAnyCase(
    c: Codec, rawEmail: string, rawVia: Option<string>, t: int, timeNs: int,
    db: Db, now: int, createdAt: int, consumedAt: int, later: seq<Request>, query: string)
    requires Faithful(c)
    requires Signup(c, Some(rawEmail), rawVia, t, timeNs).MagicLink?
    requires now <= t + 300
    requires c.nonceOf(Lower(Strip(rawEmail)), timeNs) !in db.consumed
    ensures var link := Some(Signup(c, Some(rawEmail), rawVia, t, timeNs).token);
            var db2 := Run(c, Step(c, db, ConfirmRequest(link, now, createdAt, consumedAt)).0, later);
            var email := Lower(Strip(rawEmail));
            && EqualUpToCase(email, Strip(rawEmail))
            && (forall i :: 0 <= i < |email| ==> !('A' <= email[i] <= 'Z'))
            && (EqualUpToCase(query, Strip(rawEmail)) <==>
                  Lookup(db2, query).Found? && Lookup(db2, query).email == email)
  {
    var link := Some(Signup(c, Some(rawEmail), rawVia, t, timeNs).token);
    hide DecodeToken, EncodeToken, Run, Strip, Lower, EqualUpToCase, Step, Signup;
    MagicLinkWorksExactlyOnce(c, rawEmail, rawVia, t, timeNs, db, now, createdAt, consumedAt, later,
                              ConfirmRequest(link, now, createdAt, consumedAt));
    LowerIsIdempotent(Strip(rawEmail));
    LowerIsLowerCase(Strip(rawEmail));
    LowerEqualIff(query, Strip(rawEmail));
  }

  /**
   Signup trims the e-mail address, the account query only lowers it: for an address with an account, asking with it
   as it was typed gets the account's answer exactly when nothing was trimmed.
   */
  lemma QueryAsTypedAnswersIff(db: Db, rawEmail: string)
    requires Lower(Strip(rawEmail)) in db.accounts
    ensures Lookup(db, rawEmail) == Lookup(db, Strip(rawEmail)) <==> Strip(rawEmail) == rawEmail
  {
    hide Strip, Lower;
    StripOnlyShortens(rawEmail);
  }

  /**
   The same after a signup, its confirm and any later requests: asking with the address as it was typed at signup
   shows the account that the link made or found exactly when the address had no white space around it.
   */
  lemma ConfirmedAccountIsFoundAsTypedIff(
    c: Codec, rawEmail: string, rawVia: Option<string>, t: int, timeNs: int,
    db: Db, now: int, createdAt: int, consumedAt: int, later: seq<Request>)
    requires Faithful(c)
    requires Signup(c, Some(rawEmail), rawVia, t, timeNs).MagicLink?
    requires now <= t + 300
    requires c.nonceOf(Lower(Strip(rawEmail)), timeNs) !in db.consumed
    ensures var link := Some(Signup(c, Some(rawEmail), rawVia, t, timeNs).token);
            var db2 := Run(c, Step(c, db, ConfirmRequest(link, now, createdAt, consumedAt)).0, later);
            && Lookup(db2, Strip(rawEmail)).Found?
            && (Lookup(db2, rawEmail) == Lookup(db2, Strip(rawEmail)) <==> Strip(rawEmail) == rawEmail)
  {
    var link := Some(Signup(c, Some(rawEmail), rawVia, t, timeNs).token);
    var db2 := Run(c, Step(c, db, ConfirmRequest(link, now, createdAt, consumedAt)).0, later);
    hide DecodeToken, EncodeToken, Run, Strip, Lower;
    MagicLinkWorksExactlyOnce(c, rawEmail, rawVia, t, timeNs, db, now, createdAt, consumedAt, later,
                              ConfirmRequest(link, now, createdAt, consumedAt));
    LowerIsIdempotent(Strip(rawEmail));
    QueryAsTypedAnswersIff(db2, rawEmail);
  }

  /** One such address: " a@b" gets a link and the link an account, but asking for " a@b" finds none. */
  lemma SpacedAddressIsNotFound(c: Codec, t: int, timeNs: int)
    requires Faithful(c)
    ensures Signup(c, Some(" a@b"), None, t, timeNs).MagicLink?
    ensures var link := Some(Signup(c, Some(" a@b"), None, t, timeNs).token);
            var (db, answer) := Step(c, EMPTY_DB, ConfirmRequest(link, t, t, t));
            && answer == Ok
            && Lookup(db, "a@b") == Found("a@b", None, t)
            && Lookup(db, " a@b") == NotFound
  {
    hide DecodeToken, EncodeToken;
    SpacedAddress();
    hide Strip, Lower;
    var p := SignupPayload(c, "a@b", None, t, timeNs);
    TokenRoundTrip(c, p, t);
    assert EMPTY_DB.accounts == map[] && EMPTY_DB.consumed == map[];
  }

  lemma SpacedAddress()
    ensures Strip(" a@b") == "a@b" && Lower("a@b") == "a@b" && Lower(" a@b") == " a@b"
    ensures '@' in "a@b" && "a@b" != " a@b"
  {
    hide Lower;
    assert StripLeft("a@b") == "a@b" && " a@b"[1..] == "a@b";
    assert StripRight("a@b") == "a@b";
    assert "a@b"[1] == '@' && |"a@b"| != |" a@b"|;
    LowerKeeps("a@b");
    LowerKeeps(" a@b");
  }
}
