/** backend/app.py: the in-memory part of `track_user` (the table of user
    records read from and written back to `users.json`), the counts of `stats`,
    and the command line `ask` builds for `main.py`. */
module Backend {
  import opened Py

  /** `track_user` keeps only the most recent actions of each user. */
  const MaxActions := 50

  /** A JSON value stored in an action record. */
  datatype Value = Str(s: string) | Int(n: int) | Null

  /** One action record: a dictionary from field names to values. */
  type ActionEntry = map<string, Value>

  /** One user record: `{'id': ..., 'first_seen': ..., 'actions': [...]}`. */
  datatype User = User(id: string, firstSeen: string, actions: seq<ActionEntry>)

  // ---------------------------------------------------------------------------
  // track_user
  // ---------------------------------------------------------------------------

  function IpValue(ip: Option<string>): Value
  {
    if ip.Some? then Str(ip.value) else Null
  }

  /** The action record `{'action': ..., 'timestamp': ..., 'ip': ..., **kwargs}`:
      keyword arguments override the three fixed fields, except `action`, which
      Python refuses as a keyword argument since it names a parameter. */
  function MakeEntry(action: string, timestamp: string, ip: Option<string>, kwargs: map<string, Value>): (e: ActionEntry)
    requires "action" !in kwargs
    ensures e.Keys == {"action", "timestamp", "ip"} + kwargs.Keys
    ensures e["action"] == Str(action)
    ensures forall k :: k in kwargs ==> e[k] == kwargs[k]
    ensures "timestamp" !in kwargs ==> e["timestamp"] == Str(timestamp)
    ensures "ip" !in kwargs ==> e["ip"] == IpValue(ip)
  {
    map["action" := Str(action), "timestamp" := Str(timestamp), "ip" := IpValue(ip)] + kwargs
  }

  /** `next((u for u in users if u['id'] == user_id), None)`, as a position. */
  function FirstMatch(users: seq<User>, id: string): (r: Option<nat>)
    ensures r.Some? ==> r.value < |users| && users[r.value].id == id
                        && forall k :: 0 <= k < r.value ==> users[k].id != id
    ensures r.None? ==> forall k :: 0 <= k < |users| ==> users[k].id != id
  {
    if users == [] then None
    else if users[0].id == id then Some(0)
    else match FirstMatch(users[1..], id)
      case None => None
      case Some(j) => Some(j + 1)
  }

  /** `actions[-50:]`. */
  function Truncate(actions: seq<ActionEntry>): seq<ActionEntry>
  {
    Slice(actions, -MaxActions, |actions|)
  }

  /** The table after `track_user(user_id, ...)` records `entry`: the first
      record with that id, or a new one appended at the end, gets `entry`
      appended to its actions, which are then cut to the last fifty. */
  function Tracked(users: seq<User>, userId: string, firstSeen: string, entry: ActionEntry): seq<User>
  {
    var found := FirstMatch(users, userId);
    var base := if found.None? then users + [User(userId, firstSeen, [])] else users;
    var j := if found.None? then |users| else found.value;
    base[j := base[j].(actions := Truncate(base[j].actions + [entry]))]
  }

  /** The updated action list is the last `min(old_len + 1, 50)` elements of the
      old list followed by the new action, which is always last. */
  lemma TruncateAppend(actions: seq<ActionEntry>, entry: ActionEntry)
    ensures var t, s := Truncate(actions + [entry]), actions + [entry];
      |t| == Min(|actions| + 1, MaxActions)
      && t == s[|s| - |t|..]
      && t[|t| - 1] == entry
  {
    SliceLast(actions + [entry], MaxActions);
  }

  /** An unknown id adds exactly one record at the end, holding just the new
      action; every earlier record is unchanged. */
  lemma TrackedNewUser(users: seq<User>, userId: string, firstSeen: string, entry: ActionEntry)
    requires FirstMatch(users, userId).None?
    ensures Tracked(users, userId, firstSeen, entry) == users + [User(userId, firstSeen, [entry])]
  {
    SliceLast([entry], MaxActions);
    assert [] + [entry] == [entry];
  }

  /** A known id leaves the table length alone and changes only the first record
      with that id, and in it only the action list; later duplicates and all
      other records are untouched. */
  lemma TrackedKnownUser(users: seq<User>, userId: string, firstSeen: string, entry: ActionEntry)
    requires FirstMatch(users, userId).Some?
    ensures var j, r := FirstMatch(users, userId).value, Tracked(users, userId, firstSeen, entry);
      |r| == |users|
      && r[j] == User(users[j].id, users[j].firstSeen, Truncate(users[j].actions + [entry]))
      && forall k :: 0 <= k < |users| && k != j ==> r[k] == users[k]
  {
  }

  /** Every record holds at most fifty actions. */
  predicate AllCapped(users: seq<User>)
  {
    forall k :: 0 <= k < |users| ==> |users[k].actions| <= MaxActions
  }

  /** No two records share an id. */
  predicate DistinctIds(users: seq<User>)
  {
    forall k1, k2 :: 0 <= k1 < k2 < |users| ==> users[k1].id != users[k2].id
  }

  /** Tracking never removes a record, keeps every record's id and first-seen
      time, and leaves the tracked id present. */
  lemma TrackedKeepsRecords(users: seq<User>, userId: string, firstSeen: string, entry: ActionEntry)
    ensures var r := Tracked(users, userId, firstSeen, entry);
      |users| <= |r| <= |users| + 1
      && (forall k :: 0 <= k < |users| ==> r[k].id == users[k].id && r[k].firstSeen == users[k].firstSeen)
      && FirstMatch(r, userId).Some?
  {
    var r := Tracked(users, userId, firstSeen, entry);
    if FirstMatch(users, userId).None? {
      TrackedNewUser(users, userId, firstSeen, entry);
      assert r[|users|].id == userId;
    } else {
      TrackedKnownUser(users, userId, firstSeen, entry);
      assert r[FirstMatch(users, userId).value].id == userId;
    }
  }

  /** The fifty-action cap is kept: the tracked record is cut to fifty and no
      other record changes. */
  lemma TrackedKeepsCap(users: seq<User>, userId: string, firstSeen: string, entry: ActionEntry)
    requires AllCapped(users)
    ensures AllCapped(Tracked(users, userId, firstSeen, entry))
  {
    var r := Tracked(users, userId, firstSeen, entry);
    var found := FirstMatch(users, userId);
    var base := if found.None? then users + [User(userId, firstSeen, [])] else users;
    var j := if found.None? then |users| else found.value;
    TruncateAppend(base[j].actions, entry);
    assert |r[j].actions| <= MaxActions;
  }

  /** Distinct ids stay distinct: a record is appended only for an id that no
      record has, and an update does not touch ids. */
  lemma TrackedKeepsIdsDistinct(users: seq<User>, userId: string, firstSeen: string, entry: ActionEntry)
    requires DistinctIds(users)
    ensures DistinctIds(Tracked(users, userId, firstSeen, entry))
  {
    var r := Tracked(users, userId, firstSeen, entry);
    TrackedKeepsRecords(users, userId, firstSeen, entry);
    if FirstMatch(users, userId).None? {
      TrackedNewUser(users, userId, firstSeen, entry);
      forall k1, k2 | 0 <= k1 < k2 < |r|
        ensures r[k1].id != r[k2].id
      {
        if k2 == |users| {
          assert r[k1] == users[k1];
        }
      }
    }
  }

  /** A second request with the same id finds the record the first one made or
      updated, so the table does not grow again. */
  lemma TrackedTwice(users: seq<User>, userId: string, firstSeen1: string, entry1: ActionEntry,
                     firstSeen2: string, entry2: ActionEntry)
    ensures var once := Tracked(users, userId, firstSeen1, entry1);
      |Tracked(once, userId, firstSeen2, entry2)| == |once|
  {
    var once := Tracked(users, userId, firstSeen1, entry1);
    TrackedKeepsRecords(users, userId, firstSeen1, entry1);
    TrackedKnownUser(once, userId, firstSeen2, entry2);
  }

  /** The table `track_user` reads from `users.json`, updates in place and
      writes back. */
  class UserTable {
    var users: seq<User>

    /** The invariant `track_user` keeps: ids are unique and no record holds
        more than fifty actions. */
    predicate Valid()
      reads this
    {
      DistinctIds(users) && AllCapped(users)
    }

    /** The table as `load_users` returned it. */
    constructor (loaded: seq<User>)
      ensures users == loaded
    {
      users := loaded;
    }

    /** `track_user`: find the first record with `userId` or append a new one,
        append the action record, cut the action list to its last fifty
        entries, and return the id. The id, both clock readings and the client
        address are parameters. */
    method TrackUser(userId: string, firstSeen: string, timestamp: string, ip: Option<string>,
                     action: string, kwargs: map<string, Value>)
      returns (id: string)
      requires "action" !in kwargs
      modifies this
      ensures id == userId
      ensures users == Tracked(old(users), userId, firstSeen, MakeEntry(action, timestamp, ip, kwargs))
      ensures old(Valid()) ==> Valid()
    {
      var found := FirstMatch(users, userId);
      var j: nat;
      if found.None? {
        users := users + [User(userId, firstSeen, [])];
        j := |users| - 1;
      } else {
        j := found.value;
      }
      var entry := MakeEntry(action, timestamp, ip, kwargs);
      users := users[j := users[j].(actions := users[j].actions + [entry])];
      users := users[j := users[j].(actions := Truncate(users[j].actions))];
      id := userId;
      if old(Valid()) {
        TrackedKeepsCap(old(users), userId, firstSeen, entry);
        TrackedKeepsIdsDistinct(old(users), userId, firstSeen, entry);
      }
    }
  }

  // ---------------------------------------------------------------------------
  // stats
  // ---------------------------------------------------------------------------

  /** `sum(len(u['actions']) for u in users)`. */
  function TotalQuestions(users: seq<User>): (t: nat)
    ensures AllCapped(users) ==> t <= MaxActions * |users|
  {
    if users == [] then 0
    else TotalQuestions(users[..|users| - 1]) + |users[|users| - 1].actions|
  }

  datatype Stats = Stats(totalUsers: nat, totalQuestions: nat)

  /** The two counts `stats` reports: the number of records and the number of
      stored actions, at most fifty per user under the cap. */
  function ComputeStats(users: seq<User>): (s: Stats)
    ensures s.totalUsers == |users|
    ensures AllCapped(users) ==> s.totalQuestions <= MaxActions * s.totalUsers
    ensures users == [] ==> s.totalQuestions == 0
  {
    Stats(|users|, TotalQuestions(users))
  }

  /** Replacing one record changes the total by the difference of its counts. */
  lemma {:induction false} TotalQuestionsUpdate(users: seq<User>, j: nat, u: User)
    requires j < |users|
    ensures TotalQuestions(users[j := u]) == TotalQuestions(users) - |users[j].actions| + |u.actions|
  {
    var last := |users| - 1;
    assert users[j := u][..last] == if j == last then users[..last] else users[..last][j := u];
    if j < last {
      TotalQuestionsUpdate(users[..last], j, u);
    }
  }

  /** How one `track_user` call moves `total_questions`: a new user adds one; a
      known user with `a` stored actions goes to `min(a + 1, 50)`, so under the
      cap the total grows by one until the user reaches fifty actions. */
  lemma TrackedTotal(users: seq<User>, userId: string, firstSeen: string, entry: ActionEntry)
    ensures var r := Tracked(users, userId, firstSeen, entry);
      FirstMatch(users, userId).None? ==> TotalQuestions(r) == TotalQuestions(users) + 1
    ensures var r, found := Tracked(users, userId, firstSeen, entry), FirstMatch(users, userId);
      found.Some? ==> TotalQuestions(r) == TotalQuestions(users) - |users[found.value].actions|
                        + Min(|users[found.value].actions| + 1, MaxActions)
  {
    var found := FirstMatch(users, userId);
    if found.None? {
      TrackedNewUser(users, userId, firstSeen, entry);
      var r := users + [User(userId, firstSeen, [entry])];
      assert r[..|r| - 1] == users;
    } else {
      var j := found.value;
      TruncateAppend(users[j].actions, entry);
      TotalQuestionsUpdate(users, j, users[j].(actions := Truncate(users[j].actions + [entry])));
    }
  }

  // ---------------------------------------------------------------------------
  // ask: the command line for main.py
  // ---------------------------------------------------------------------------

  /** The truth value of the optional form field `model`: present and not empty. */
  predicate Truthy(model: Option<string>)
  {
    model.Some? && model.value != ""
  }

  /** The argument vector `ask` passes to `subprocess.run`. */
  function AskCommand(scriptPath: string, pdfPath: string, question: string, model: Option<string>): (cmd: seq<string>)
  {
    var base := ["python", scriptPath, "--pdf", pdfPath, "--question", question];
    if Truthy(model) then base + ["--model", model.value] else base
  }

  /** The value that follows `flag` among the option pairs of `args` (the
      elements after the interpreter and the script name, read two by two). */
  function OptionValue(args: seq<string>, flag: string): Option<string>
    decreases |args|
  {
    if |args| < 2 then None
    else if args[0] == flag then Some(args[1])
    else OptionValue(args[2..], flag)
  }

  /** What `main.py` receives: the interpreter and the script, then the PDF path
      and the question, then the model last and exactly when the form field is
      truthy;
      read back pair by pair, each option gives what `ask` put in. */
  lemma AskCommandShape(scriptPath: string, pdfPath: string, question: string, model: Option<string>)
    ensures var cmd := AskCommand(scriptPath, pdfPath, question, model);
      cmd[..2] == ["python", scriptPath]
      && cmd[2..6] == ["--pdf", pdfPath, "--question", question]
      && cmd[6..] == (if Truthy(model) then ["--model", model.value] else [])
      && (|cmd| == 8 <==> Truthy(model))
      && (|cmd| == 6 <==> !Truthy(model))
      && OptionValue(cmd[2..], "--pdf") == Some(pdfPath)
      && OptionValue(cmd[2..], "--question") == Some(question)
      && OptionValue(cmd[2..], "--model") == (if Truthy(model) then Some(model.value) else None)
  {
    var cmd := AskCommand(scriptPath, pdfPath, question, model);
    var opts := cmd[2..];
    assert opts[2..][2..] == cmd[6..];
    if Truthy(model) {
      assert cmd[6..] == ["--model", model.value];
      assert cmd[6..][2..] == [];
      assert OptionValue(opts[2..], "--model") == OptionValue(cmd[6..], "--model");
    } else {
      assert cmd[6..] == [];
      assert OptionValue(opts[2..], "--model") == OptionValue([], "--model");
    }
  }
}
