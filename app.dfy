/**
 * The request handling of `app.py`: the account rules of `/register` and
 * `/login`, the `/ask` exchange that writes one record to the vector
 * collection and one row to the query log, and the `/dashboard` listing.
 *
 * The state is the user table, the query-log table and the vector collection
 * (id to record). Everything outside it comes in as a parameter: the form
 * fields, the completion service's outcome, the outcome of `collection.add`
 * and of `db.session.commit`, the password hash and its check, and the clock.
 */
module App {
  import opened Wrappers
  import opened Strings
  import opened VectorRecords

  // ---------------------------------------------------------------------------
  // Tables

  /** A row of table `user`; `passwordHash` is what `generate_password_hash` stored. */
  datatype User = User(id: nat, username: string, email: string, passwordHash: string)

  /** A row of table `query_log`; `ts` is the time the row was written. */
  datatype QueryLog = QueryLog(id: nat, userId: nat, prompt: string, response: string, ts: string)

  /** The integer primary key SQLite gives a new row: one more than the
      largest key in the table, 1 in an empty table. */
  function NextId(ids: seq<nat>): (r: nat)
    ensures r >= 1
    ensures forall k :: 0 <= k < |ids| ==> ids[k] < r
    ensures r == 1 || r - 1 in ids
  {
    if ids == [] then 1
    else
      var rest := NextId(ids[..|ids| - 1]);
      if ids[|ids| - 1] < rest then rest else ids[|ids| - 1] + 1
  }

  function UserIds(users: seq<User>): seq<nat> {
    seq(|users|, k requires 0 <= k < |users| => users[k].id)
  }

  function LogIds(logs: seq<QueryLog>): seq<nat> {
    seq(|logs|, k requires 0 <= k < |logs| => logs[k].id)
  }

  /** Rows are kept in key order, so keys are unique. */
  predicate UserIdsAscending(users: seq<User>) {
    forall i, j :: 0 <= i < j < |users| ==> users[i].id < users[j].id
  }

  /** The `unique=True` constraint on `user.username`. */
  predicate UsernamesUnique(users: seq<User>) {
    forall i, j :: 0 <= i < j < |users| ==> users[i].username != users[j].username
  }

  /** The `unique=True` constraint on `user.email`. */
  predicate EmailsUnique(users: seq<User>) {
    forall i, j :: 0 <= i < j < |users| ==> users[i].email != users[j].email
  }

  predicate UsersValid(users: seq<User>) {
    UserIdsAscending(users) && UsernamesUnique(users) && EmailsUnique(users)
  }

  predicate LogIdsAscending(logs: seq<QueryLog>) {
    forall i, j :: 0 <= i < j < |logs| ==> logs[i].id < logs[j].id
  }

  predicate HasUser(users: seq<User>, id: nat) {
    exists u :: u in users && u.id == id
  }

  /** The foreign key `query_log.user_id -> user.id`. */
  predicate LogsReferToUsers(logs: seq<QueryLog>, users: seq<User>) {
    forall i :: 0 <= i < |logs| ==> HasUser(users, logs[i].userId)
  }

  datatype Column = Username | Email

  function Field(u: User, c: Column): string {
    match c
    case Username => u.username
    case Email => u.email
  }

  /** `User.query.filter_by(<column>=value).first()`: the first row, in key
      order, whose column holds `value`, if any. */
  function FindFirst(users: seq<User>, c: Column, value: string): (r: Option<User>)
    ensures r.Some? ==> r.value in users && Field(r.value, c) == value
    ensures r.None? <==> forall k :: 0 <= k < |users| ==> Field(users[k], c) != value
  {
    if users == [] then None
    else if Field(users[0], c) == value then Some(users[0])
    else FindFirst(users[1..], c, value)
  }

  /** `User.query.get(id)` as the dashboard's join uses it. */
  function UserById(users: seq<User>, id: nat): (r: Option<User>)
    ensures r.Some? ==> r.value in users && r.value.id == id
    ensures r.None? <==> !HasUser(users, id)
  {
    if users == [] then None
    else if users[0].id == id then Some(users[0])
    else
      var r := UserById(users[1..], id);
      assert forall u :: u in users && u != users[0] ==> u in users[1..];
      r
  }

  // ---------------------------------------------------------------------------
  // /register

  /** Why `/register` turns a request away. */
  datatype Rejection =
    | PasswordsDiffer   // "Passwords don’t match"
    | UsernameTaken     // "Username already exists"
    | EmailTaken        // "Email already in use"

  /** The three checks of `/register`, in the order the handler makes them:
      each rejection is reported only when the earlier checks passed. */
  function CheckRegistration(users: seq<User>, username: string, email: string,
                             password: string, confirm: string): (r: Option<Rejection>)
    ensures r == Some(PasswordsDiffer) <==> password != confirm
    ensures r == Some(UsernameTaken) <==>
              password == confirm && exists u :: u in users && u.username == username
    ensures r == Some(EmailTaken) <==>
              password == confirm && (forall u :: u in users ==> u.username != username)
              && exists u :: u in users && u.email == email
    ensures r == None <==>
              password == confirm && forall u :: u in users ==> u.username != username && u.email != email
  {
    if password != confirm then Some(PasswordsDiffer)
    else if FindFirst(users, Username, username).Some? then Some(UsernameTaken)
    else if FindFirst(users, Email, email).Some? then Some(EmailTaken)
    else None
  }

  /** The row `/register` inserts when every check passes. */
  function NewUser(users: seq<User>, username: string, email: string, hashed: string): User {
    User(NextId(UserIds(users)), username, email, hashed)
  }

  /** A registration that passes the checks keeps keys ascending and
      usernames and emails unique. */
  lemma RegisterKeepsUsersValid(users: seq<User>, username: string, email: string,
                                password: string, confirm: string, hashed: string)
    requires UsersValid(users)
    requires CheckRegistration(users, username, email, password, confirm) == None
    ensures UsersValid(users + [NewUser(users, username, email, hashed)])
  {
    var u := NewUser(users, username, email, hashed);
    var us := users + [u];
    forall i | 0 <= i < |users| ensures users[i].id < u.id && users[i].username != username && users[i].email != email {
      assert UserIds(users)[i] == users[i].id;
      assert users[i] in users;
    }
    forall i, j | 0 <= i < j < |us|
      ensures us[i].id < us[j].id && us[i].username != us[j].username && us[i].email != us[j].email
    {
      assert us[i] == users[i];
      if j < |users| {
        assert us[j] == users[j];
      }
    }
  }

  // ---------------------------------------------------------------------------
  // /login

  /** `/login`: the user with that username, when there is one and the
      password check accepts the stored hash; `None` means "Invalid credentials". */
  function Login(users: seq<User>, username: string, password: string,
                 check: (string, string) -> bool): (r: Option<User>)
    requires UsernamesUnique(users)
    ensures r.Some? <==> exists u :: u in users && u.username == username && check(u.passwordHash, password)
    ensures r.Some? ==> r.value in users && r.value.username == username
  {
    match FindFirst(users, Username, username)
    case None => None
    case Some(u) =>
      UniqueUsername(users, u);
      if check(u.passwordHash, password) then Some(u) else None
  }

  /** With unique usernames, a user is the only row carrying its username. */
  lemma UniqueUsername(users: seq<User>, u: User)
    requires UsernamesUnique(users) && u in users
    ensures forall v :: v in users && v.username == u.username ==> v == u
  {
    forall v | v in users && v.username == u.username ensures v == u {
      var i :| 0 <= i < |users| && users[i] == u;
      var j :| 0 <= j < |users| && users[j] == v;
    }
  }

  // ---------------------------------------------------------------------------
  // /ask

  /** What the completion service did: answered with `output_text`, or raised. */
  datatype Completion = Answered(outputText: string) | Raised(message: string)

  datatype Body = Answer(response: string) | Failure(error: string)

  /** An HTTP status code and the JSON body. */
  datatype Reply = Reply(status: nat, body: Body)

  /** The id of an exchange in the vector collection: `f"{user_id}-{millis}"`. */
  function ExchangeId(userId: nat, millis: nat): string {
    Decimal(userId) + "-" + Decimal(millis)
  }

  /** Two exchange ids are equal exactly when user and millisecond are: the
      '-' is the only character that is not a digit. */
  lemma ExchangeIdInjective(u1: nat, m1: nat, u2: nat, m2: nat)
    ensures ExchangeId(u1, m1) == ExchangeId(u2, m2) <==> u1 == u2 && m1 == m2
  {
    var s1, s2 := ExchangeId(u1, m1), ExchangeId(u2, m2);
    var a1, a2 := Decimal(u1), Decimal(u2);
    if s1 == s2 {
      var p1, p2 := |a1|, |a2|;
      assert s1[p1] == '-' && s2[p2] == '-' && !IsDigit('-');
      assert forall q :: 0 <= q < p1 ==> s1[q] == a1[q];
      assert forall q :: 0 <= q < p2 ==> s2[q] == a2[q];
      assert p1 == p2;
      assert a1 == s1[..p1] == s2[..p2] == a2;
      DecimalInjective(u1, u2);
      assert Decimal(m1) == s1[p1 + 1..] == s2[p2 + 1..] == Decimal(m2);
      DecimalInjective(m1, m2);
    }
  }

  /** The document stored for an exchange: prompt, a blank line, answer. */
  function ExchangeDocument(prompt: string, answer: string): (d: string)
    ensures |d| == |prompt| + 2 + |answer|
    ensures d[..|prompt|] == prompt && d[|prompt|..|prompt| + 2] == "\n\n" && d[|prompt| + 2..] == answer
  {
    prompt + "\n\n" + answer
  }

  /** Given the length of the prompt, the stored document gives back both the
      prompt and the answer. */
  lemma ExchangeDocumentParts(p1: string, a1: string, p2: string, a2: string)
    requires |p1| == |p2|
    ensures ExchangeDocument(p1, a1) == ExchangeDocument(p2, a2) <==> p1 == p2 && a1 == a2
  {
    var d1, d2 := ExchangeDocument(p1, a1), ExchangeDocument(p2, a2);
    if d1 == d2 {
      assert p1 == d1[..|p1|] == d2[..|p2|] == p2;
      assert a1 == d1[|p1| + 2..] == d2[|p2| + 2..] == a2;
    }
  }

  /** The record stored for an exchange, with its metadata `user_id` and `ts`. */
  function ExchangeRecord(userId: nat, prompt: string, answer: string, ts: string): (r: VectorRecord)
    ensures r.metadata.Keys == {"user_id", "ts"}
    ensures r.metadata["user_id"] == Int(userId) && r.metadata["ts"] == Text(ts)
  {
    VectorRecord(ExchangeDocument(prompt, answer), map["user_id" := Int(userId), "ts" := Text(ts)])
  }

  /** Adding a log row with the next key to a valid log keeps it valid. */
  lemma AppendLogKeepsValid(logs: seq<QueryLog>, users: seq<User>, l: QueryLog)
    requires LogIdsAscending(logs) && LogsReferToUsers(logs, users)
    requires l.id == NextId(LogIds(logs)) && HasUser(users, l.userId)
    ensures LogIdsAscending(logs + [l]) && LogsReferToUsers(logs + [l], users)
  {
    forall i | 0 <= i < |logs| ensures logs[i].id < l.id {
      assert LogIds(logs)[i] == logs[i].id;
    }
    assert forall i :: 0 <= i < |logs| ==> (logs + [l])[i] == logs[i];
  }

  /** Adding a user keeps every log row's user. */
  lemma AddUserKeepsReferences(logs: seq<QueryLog>, users: seq<User>, u: User)
    requires LogsReferToUsers(logs, users)
    ensures LogsReferToUsers(logs, users + [u])
  {
    forall i | 0 <= i < |logs| ensures HasUser(users + [u], logs[i].userId) {
      assert HasUser(users, logs[i].userId);
      var v :| v in users && v.id == logs[i].userId;
      assert v in users + [u];
    }
  }

  // ---------------------------------------------------------------------------
  // /dashboard

  /** The most rows `/dashboard` lists. */
  const DashboardLimit: nat := 50

  /** A log row joined with its user's name. */
  datatype Row = Row(log: QueryLog, username: string)

  /** Some row of `rows` shows log row `l`. */
  predicate Shows(rows: seq<Row>, l: QueryLog) {
    exists k :: 0 <= k < |rows| && rows[k].log == l
  }

  /** The row pairs a log row with the name of the user the row belongs to. */
  predicate Joined(users: seq<User>, row: Row) {
    exists u :: u in users && u.id == row.log.userId && u.username == row.username
  }

  /** `query(QueryLog, User.username).join(User).order_by(QueryLog.id.desc())
      .limit(limit)`, over a log kept in key order: the rows with the largest
      keys first, at most `limit` of them, each with its user's name; rows
      whose user is missing drop out of the join. */
  function LatestRows(logs: seq<QueryLog>, users: seq<User>, limit: nat): (rows: seq<Row>)
    ensures |rows| <= limit && |rows| <= |logs|
    decreases |logs|
  {
    if logs == [] || limit == 0 then []
    else
      var l := logs[|logs| - 1];
      var before := logs[..|logs| - 1];
      match UserById(users, l.userId)
      case None => LatestRows(before, users, limit)
      case Some(u) => [Row(l, u.username)] + LatestRows(before, users, limit - 1)
  }

  /** Every listed row is a row of the log, shown with the name of the
      user it belongs to. */
  lemma {:induction false} LatestRowsSound(logs: seq<QueryLog>, users: seq<User>, limit: nat)
    ensures forall k :: 0 <= k < |LatestRows(logs, users, limit)| ==>
              LatestRows(logs, users, limit)[k].log in logs && Joined(users, LatestRows(logs, users, limit)[k])
    decreases |logs|
  {
    if logs != [] && limit != 0 {
      var l := logs[|logs| - 1];
      var before := logs[..|logs| - 1];
      var rows := LatestRows(logs, users, limit);
      match UserById(users, l.userId)
      case None =>
        LatestRowsSound(before, users, limit);
        var rest := LatestRows(before, users, limit);
        forall k | 0 <= k < |rows| ensures rows[k].log in logs && Joined(users, rows[k]) {
          assert rows[k] == rest[k];
          assert rest[k].log in before;
        }
      case Some(u) =>
        LatestRowsSound(before, users, limit - 1);
        var rest := LatestRows(before, users, limit - 1);
        forall k | 0 <= k < |rows| ensures rows[k].log in logs && Joined(users, rows[k]) {
          if k > 0 {
            assert rows[k] == rest[k - 1];
            assert rest[k - 1].log in before;
          }
        }
    }
  }

  /** Listed rows never carry a larger key than the log holds. */
  lemma {:induction false} LatestRowsBelow(logs: seq<QueryLog>, users: seq<User>, limit: nat, id: nat)
    requires forall i :: 0 <= i < |logs| ==> logs[i].id < id
    ensures forall k :: 0 <= k < |LatestRows(logs, users, limit)| ==> LatestRows(logs, users, limit)[k].log.id < id
    decreases |logs|
  {
    if logs != [] && limit != 0 {
      var l := logs[|logs| - 1];
      var before := logs[..|logs| - 1];
      var rows := LatestRows(logs, users, limit);
      assert forall i :: 0 <= i < |before| ==> before[i] == logs[i];
      match UserById(users, l.userId)
      case None =>
        LatestRowsBelow(before, users, limit, id);
        var rest := LatestRows(before, users, limit);
        forall k | 0 <= k < |rows| ensures rows[k].log.id < id {
          assert rows[k] == rest[k];
        }
      case Some(u) =>
        LatestRowsBelow(before, users, limit - 1, id);
        var rest := LatestRows(before, users, limit - 1);
        forall k | 0 <= k < |rows| ensures rows[k].log.id < id {
          if k > 0 {
            assert rows[k] == rest[k - 1];
          }
        }
    }
  }

  predicate Descending(rows: seq<Row>) {
    forall i, j :: 0 <= i < j < |rows| ==> rows[i].log.id > rows[j].log.id
  }

  lemma DescendingCons(r: Row, rows: seq<Row>)
    requires Descending(rows)
    requires forall j :: 0 <= j < |rows| ==> rows[j].log.id < r.log.id
    ensures Descending([r] + rows)
  {
    var s := [r] + rows;
    forall i, j | 0 <= i < j < |s| ensures s[i].log.id > s[j].log.id {
      assert s[j] == rows[j - 1];
      if i > 0 {
        assert s[i] == rows[i - 1];
      }
    }
  }

  /** The dashboard lists rows in strictly descending key order. */
  lemma {:induction false} LatestRowsDescending(logs: seq<QueryLog>, users: seq<User>, limit: nat)
    requires LogIdsAscending(logs)
    ensures Descending(LatestRows(logs, users, limit))
    decreases |logs|
  {
    if logs != [] && limit != 0 {
      var l := logs[|logs| - 1];
      var before := logs[..|logs| - 1];
      assert forall i :: 0 <= i < |before| ==> before[i] == logs[i];
      match UserById(users, l.userId)
      case None =>
        LatestRowsDescending(before, users, limit);
      case Some(u) =>
        var rest := LatestRows(before, users, limit - 1);
        LatestRowsDescending(before, users, limit - 1);
        LatestRowsBelow(before, users, limit - 1, l.id);
        assert forall j :: 0 <= j < |rest| ==> rest[j].log.id < l.id;
        DescendingCons(Row(l, u.username), rest);
    }
  }

  /** The listing is not cut off before key `id`: it is shorter than the
      limit, or its last row's key is at most `id`. */
  predicate Reaches(rows: seq<Row>, limit: nat, id: nat) {
    |rows| < limit || (|rows| > 0 && rows[|rows| - 1].log.id <= id)
  }

  lemma ShowsCons(r: Row, rows: seq<Row>, l: QueryLog)
    requires Shows(rows, l)
    ensures Shows([r] + rows, l)
  {
    var k :| 0 <= k < |rows| && rows[k].log == l;
    assert ([r] + rows)[k + 1] == rows[k];
  }

  /** The dashboard leaves out no joinable row with a larger key than its
      last row, and lists every joinable row when it holds fewer than `limit`. */
  lemma {:induction false} LatestRowsComplete(logs: seq<QueryLog>, users: seq<User>, limit: nat, i: nat)
    requires LogIdsAscending(logs)
    requires i < |logs| && HasUser(users, logs[i].userId)
    ensures Reaches(LatestRows(logs, users, limit), limit, logs[i].id) ==> Shows(LatestRows(logs, users, limit), logs[i])
    decreases |logs|
  {
    var rows := LatestRows(logs, users, limit);
    if limit != 0 && i == |logs| - 1 {
      var u := UserById(users, logs[i].userId).value;
      assert rows == [Row(logs[i], u.username)] + LatestRows(logs[..i], users, limit - 1);
      assert rows[0].log == logs[i];
    } else if limit != 0 {
      var l := logs[|logs| - 1];
      var before := logs[..|logs| - 1];
      assert before[i] == logs[i];
      match UserById(users, l.userId)
      case None =>
        LatestRowsComplete(before, users, limit, i);
        assert rows == LatestRows(before, users, limit);
      case Some(u) =>
        var rest := LatestRows(before, users, limit - 1);
        LatestRowsComplete(before, users, limit - 1, i);
        assert rows == [Row(l, u.username)] + rest;
        if Reaches(rows, limit, logs[i].id) {
          assert Reaches(rest, limit - 1, logs[i].id);
          ShowsCons(Row(l, u.username), rest, logs[i]);
        }
    }
  }

  /** When every log row has its user, the dashboard lists `limit` rows, or
      all rows when there are fewer. */
  lemma {:induction false} LatestRowsCount(logs: seq<QueryLog>, users: seq<User>, limit: nat)
    requires LogsReferToUsers(logs, users)
    ensures |LatestRows(logs, users, limit)| == if |logs| < limit then |logs| else limit
    decreases |logs|
  {
    if logs != [] && limit != 0 {
      var before := logs[..|logs| - 1];
      assert forall i :: 0 <= i < |before| ==> before[i] == logs[i];
      assert HasUser(users, logs[|logs| - 1].userId);
      LatestRowsCount(before, users, limit - 1);
    }
  }

  // ---------------------------------------------------------------------------
  // The application state

  /** What `/register` did. */
  datatype RegisterOutcome =
    | Rejected(reason: Rejection)
    | CommitFailed(message: string)   // the commit raised; the row is not stored
    | Created(user: User)             // "Account created — please log in"

  /** The two database tables and the vector collection the handlers share. */
  class Server {
    var users: seq<User>
    var logs: seq<QueryLog>
    var vectors: map<string, VectorRecord>

    /** The table constraints: ascending unique keys, unique usernames and
        emails, and every log row pointing at a user. */
    predicate Valid()
      reads this
    {
      UsersValid(users) && LogIdsAscending(logs) && LogsReferToUsers(logs, users)
    }

    /** Empty tables and an empty collection, as `db.create_all()` leaves them. */
    constructor ()
      ensures Valid()
      ensures users == [] && logs == [] && vectors == map[]
    {
      users := [];
      logs := [];
      vectors := map[];
    }

    /** `/register` with form fields `username`, `email`, `password` and
        `confirm`; `hashed` is what `generate_password_hash(password)` gives and
        `commitError` the error `db.session.commit()` raises, if any. A rejected
        or failed registration leaves every table as it was; a successful one
        appends exactly one user with the next key. */
    method Register(username: string, email: string, password: string, confirm: string,
                    hashed: string, commitError: Option<string>) returns (r: RegisterOutcome)
      requires Valid()
      modifies this
      ensures Valid()
      ensures logs == old(logs) && vectors == old(vectors)
      ensures var check := CheckRegistration(old(users), username, email, password, confirm);
              check.Some? ==> r == Rejected(check.value) && users == old(users)
      ensures var check := CheckRegistration(old(users), username, email, password, confirm);
              check.None? && commitError.Some? ==> r == CommitFailed(commitError.value) && users == old(users)
      ensures var check := CheckRegistration(old(users), username, email, password, confirm);
              check.None? && commitError.None? ==>
                r == Created(NewUser(old(users), username, email, hashed)) && users == old(users) + [r.user]
    {
      var check := CheckRegistration(users, username, email, password, confirm);
      if check.Some? {
        return Rejected(check.value);
      }
      var u := NewUser(users, username, email, hashed);
      if commitError.Some? {
        return CommitFailed(commitError.value);
      }
      RegisterKeepsUsersValid(users, username, email, password, confirm, hashed);
      AddUserKeepsReferences(logs, users, u);
      users := users + [u];
      r := Created(u);
    }

    /** `/ask` for the logged-in user `userId`. `prompt` is the JSON field
        (`None` when absent), `completion` what the completion service did,
        `millis` the clock in milliseconds used for the record id, `vectorTs`
        and `logTs` the timestamps of the record and of the log row, and
        `addError` and `commitError` what `collection.add` and the commit
        raised, if anything.

        The steps run in order and each failure stops the rest: an empty
        prompt is refused with 400 before anything else, a failure of the
        completion or of `collection.add` gives 500 and writes nothing, and a
        failed commit gives 500 while the record already added stays. */
    method Ask(userId: nat, prompt: Option<string>, completion: Completion, millis: nat,
               vectorTs: string, logTs: string, addError: Option<string>, commitError: Option<string>)
      returns (reply: Reply)
      requires Valid() && HasUser(users, userId)
      modifies this
      ensures Valid()
      ensures users == old(users)
      ensures Strip(prompt.GetOr("")) == [] ==>
                reply == Reply(400, Failure("No prompt")) && logs == old(logs) && vectors == old(vectors)
      ensures Strip(prompt.GetOr("")) != [] && completion.Raised? ==>
                reply == Reply(500, Failure(completion.message)) && logs == old(logs) && vectors == old(vectors)
      ensures Strip(prompt.GetOr("")) != [] && completion.Answered? && addError.Some? ==>
                reply == Reply(500, Failure(addError.value)) && logs == old(logs) && vectors == old(vectors)
      ensures Strip(prompt.GetOr("")) != [] && completion.Answered? && addError.None? ==>
                var uid := ExchangeId(userId, millis);
                vectors.Keys == old(vectors).Keys + {uid}
                && (forall id :: id in old(vectors) && id != uid ==> vectors[id] == old(vectors)[id])
                && (uid !in old(vectors) ==>
                      vectors[uid] == ExchangeRecord(userId, Strip(prompt.GetOr("")), Strip(completion.outputText), vectorTs))
      ensures Strip(prompt.GetOr("")) != [] && completion.Answered? && addError.None? && commitError.Some? ==>
                reply == Reply(500, Failure(commitError.value)) && logs == old(logs)
      ensures Strip(prompt.GetOr("")) != [] && completion.Answered? && addError.None? && commitError.None? ==>
                var p := Strip(prompt.GetOr(""));
                var answer := Strip(completion.outputText);
                reply == Reply(200, Answer(answer))
                && logs == old(logs) + [QueryLog(NextId(LogIds(old(logs))), userId, p, answer, logTs)]
    {
      var p := Strip(prompt.GetOr(""));
      if p == [] {
        return Reply(400, Failure("No prompt"));
      }
      match completion
      case Raised(message) =>
        return Reply(500, Failure(message));
      case Answered(outputText) =>
        reply := Exchange(userId, p, Strip(outputText), millis, vectorTs, logTs, addError, commitError);
    }

    /** The part of `/ask` after the completion answered: add the record to
        the collection, then append and commit the log row. */
    method Exchange(userId: nat, p: string, answer: string, millis: nat,
                    vectorTs: string, logTs: string, addError: Option<string>, commitError: Option<string>)
      returns (reply: Reply)
      requires Valid() && HasUser(users, userId)
      modifies this
      ensures Valid()
      ensures users == old(users)
      ensures addError.Some? ==>
                reply == Reply(500, Failure(addError.value)) && logs == old(logs) && vectors == old(vectors)
      ensures addError.None? ==>
                var uid := ExchangeId(userId, millis);
                vectors.Keys == old(vectors).Keys + {uid}
                && (forall id :: id in old(vectors) && id != uid ==> vectors[id] == old(vectors)[id])
                && (uid !in old(vectors) ==> vectors[uid] == ExchangeRecord(userId, p, answer, vectorTs))
      ensures addError.None? && commitError.Some? ==>
                reply == Reply(500, Failure(commitError.value)) && logs == old(logs)
      ensures addError.None? && commitError.None? ==>
                reply == Reply(200, Answer(answer))
                && logs == old(logs) + [QueryLog(NextId(LogIds(old(logs))), userId, p, answer, logTs)]
    {
      var uid := ExchangeId(userId, millis);
      if addError.Some? {
        return Reply(500, Failure(addError.value));
      }
      if uid !in vectors {
        var rec := ExchangeRecord(userId, p, answer, vectorTs);
        vectors := vectors[uid := rec];
      }
      assert vectors.Keys == old(vectors).Keys + {uid};
      if commitError.Some? {
        return Reply(500, Failure(commitError.value));
      }
      var row := QueryLog(NextId(LogIds(logs)), userId, p, answer, logTs);
      AppendLogKeepsValid(logs, users, row);
      logs := logs + [row];
      reply := Reply(200, Answer(answer));
    }

    /** `/dashboard`: the latest `DashboardLimit` log rows with their users'
        names, newest first. */
    method Dashboard() returns (rows: seq<Row>)
      requires Valid()
      ensures rows == LatestRows(logs, users, DashboardLimit)
      ensures |rows| == if |logs| < DashboardLimit then |logs| else DashboardLimit
      ensures Descending(rows)
    {
      rows := LatestRows(logs, users, DashboardLimit);
      LatestRowsDescending(logs, users, DashboardLimit);
      LatestRowsCount(logs, users, DashboardLimit);
    }
  }
}
