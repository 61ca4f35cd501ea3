/** The account, group and chat registry behind the request and socket
    handlers. The users, groups, group_members and messages tables are
    fields of one `App` object, each with its AUTOINCREMENT counter where
    the schema has one; the signed session cookie of each browser is an
    entry of `sessions`. Handler outcomes (redirects with a flashed notice,
    rendered pages, dropped or broadcast chat messages) are values. */
module Registry {
  import opened Common
  import Text
  import Otp

  /** One browser, identified by its signed session cookie. */
  type Client = nat

  /** One socket connection (its Socket.IO session id). A browser may hold
      several, one per open tab. */
  type Conn = nat

  /** werkzeug's salted password hash, represented by the one property the
      handlers rely on: a password checks against the hash of a password
      exactly when the two are equal. */
  datatype PasswordHash = Salted(salt: string, secret: string)

  /** `generate_password_hash(password)`, the salt being its random draw. */
  function HashPassword(password: string, salt: string): PasswordHash {
    Salted(salt, password)
  }

  /** `check_password_hash(hash, password)` */
  predicate CheckPassword(hash: PasswordHash, password: string) {
    hash.secret == password
  }

  lemma CheckHashedPassword(password: string, salt: string, attempt: string)
    ensures CheckPassword(HashPassword(password, salt), attempt) <==> attempt == password
  {
  }

  /** A row of `users`; `created_at` is not modelled. */
  datatype User = User(
    username: string,
    email: string,
    passwordHash: PasswordHash,
    bio: string,
    avatarUrl: Option<string>,
    isVerified: bool,
    otpCode: Option<string>,
    otpExpires: Option<Otp.Stamp>)

  /** A row of `groups`; `created_at` is not modelled. */
  datatype Group = Group(name: string, description: string, isPublic: bool, ownerId: nat, inviteCode: Option<string>)

  datatype Role = Owner | Member

  /** A row of `messages`. The group id is whatever the room name parsed
      to: no foreign key is enforced, so it may name no group at all. */
  datatype Message = Message(id: nat, groupId: int, userId: nat, content: string)

  /** The two keys of the Flask session the core uses. */
  datatype Session = Session(userId: Option<nat>, pendingEmail: Option<string>)

  const NoSession: Session := Session(None, None)

  /** `session.get("user_id")` taken as a truth value: absent or 0 is no user. */
  function UserIdOf(session: Session): (r: Option<nat>)
    ensures r.Some? <==> session.userId.Some? && session.userId.value != 0
    ensures r.Some? ==> r == session.userId
  {
    match session.userId
    case Some(uid) => if uid == 0 then None else Some(uid)
    case None => None
  }

  datatype Page = Home | RegisterForm | VerifyForm | LoginForm | GroupList | GroupRoom(groupId: nat)

  /** The flashed messages, one per distinct text of the source. */
  datatype Notice =
    | AllFieldsRequired | AccountExists | OtpNotSent | OtpSent
    | NoPendingVerification | PendingUserNotFound | InvalidOrExpiredOtp | EmailVerified
    | VerifyBeforeLogin | InvalidCredentials | LoginRequired
    | GroupNameTaken | PrivateGroupCreated | PublicGroupCreated
    | GroupNotFound | PrivateGroupNeedsCode | JoinedGroup
    | InviteCodeRequired | InvalidInviteCode | JoinedPrivateGroup | JoinFirst

  /** One entry of the group list: the group, whether the viewer is a
      member, and the owner's name ("Unknown" when the owner row is gone). */
  datatype GroupRow = GroupRow(id: nat, group: Group, isMember: bool, ownerName: string)

  /** A message joined with its author's name. */
  datatype ChatLine = ChatLine(message: Message, username: string)

  datatype Response =
    | Redirect(to: Page, notice: Option<Notice>)
    | Render(page: Page, notice: Option<Notice>)
    | GroupListing(rows: seq<GroupRow>)
    | Room(groupId: nat, group: Group, lines: seq<ChatLine>)
    | ServerError

  /** SQLite's INTEGER is a signed 64-bit number; binding a Python int
      outside this range raises OverflowError. */
  const SqliteIntMin: int := -0x8000_0000_0000_0000
  const SqliteIntMax: int := 0x7fff_ffff_ffff_ffff

  predicate FitsSqliteInteger(x: int) {
    SqliteIntMin <= x <= SqliteIntMax
  }

  /** What `on_message` does with one socket event: nothing, or the
      `message` event sent to every connection in the room (the display
      time it carries is not modelled). */
  datatype Relay = Dropped | Broadcast(room: string, username: string, text: string)

  const UnknownOwner: string := "Unknown"

  /** `form["email"].strip().lower()`, the form an address is stored and
      looked up in. */
  function NormalizeEmail(field: string): string {
    Text.Lower(Text.Strip(field))
  }

  /** A stored address normalises to itself, so the address kept at
      registration is the one a login with it looks up. */
  lemma NormalizeEmailIdempotent(field: string)
    ensures NormalizeEmail(NormalizeEmail(field)) == NormalizeEmail(field)
  {
    var s := Text.Strip(field);
    Text.LowerStrip(s);
    Text.StripIdempotent(field);
    Text.LowerIdempotent(s);
  }

  // ---------- the users table ----------

  /** The `username` column of the row stored under `id`. */
  function UsernameAt(users: map<nat, User>, id: nat): string
    requires id in users
  {
    users[id].username
  }

  /** The `email` column of the row stored under `id`. */
  function EmailAt(users: map<nat, User>, id: nat): string
    requires id in users
  {
    users[id].email
  }

  predicate UsernameTaken(users: map<nat, User>, username: string) {
    exists id :: id in users && UsernameAt(users, id) == username
  }

  predicate EmailTaken(users: map<nat, User>, email: string) {
    exists id :: id in users && EmailAt(users, id) == email
  }

  /** The UNIQUE constraints on `username` and `email`. */
  predicate UniqueAccounts(users: map<nat, User>) {
    && (forall a, b :: a in users && b in users && UsernameAt(users, a) == UsernameAt(users, b) ==> a == b)
    && (forall a, b :: a in users && b in users && EmailAt(users, a) == EmailAt(users, b) ==> a == b)
  }

  /** An account is either unverified and holds a code and its expiry, or
      verified and holds neither. */
  predicate OtpPaired(u: User) {
    && (u.isVerified <==> u.otpCode.None?)
    && (u.otpCode.None? <==> u.otpExpires.None?)
  }

  ghost predicate AccountsOk(users: map<nat, User>, nextUserId: nat) {
    && 1 <= nextUserId
    && (forall id :: id in users ==> 1 <= id < nextUserId)
    && UniqueAccounts(users)
    && (forall id :: id in users ==>
          OtpPaired(users[id]) && users[id].username != [] && users[id].email != [])
  }

  /** `SELECT * FROM users WHERE email=?` on the UNIQUE column. */
  function UserByEmail(users: map<nat, User>, email: string): (r: Option<nat>)
    requires UniqueAccounts(users)
    ensures r.None? <==> !EmailTaken(users, email)
    ensures r.Some? ==> r.value in users && users[r.value].email == email
    ensures r.Some? ==> forall id :: id in users && EmailAt(users, id) == email ==> id == r.value
  {
    if EmailTaken(users, email) then
      var id :| id in users && EmailAt(users, id) == email;
      Some(id)
    else None
  }

  // ---------- the groups and group_members tables ----------

  predicate NameTaken(groups: map<nat, Group>, name: string) {
    exists id :: id in groups && groups[id].name == name
  }

  ghost predicate GroupsOk(groups: map<nat, Group>, nextGroupId: nat, users: map<nat, User>) {
    && 1 <= nextGroupId
    && (forall id :: id in groups <==> 1 <= id < nextGroupId)
    && (forall a, b :: a in groups && b in groups && a != b ==> groups[a].name != groups[b].name)
    && (forall id :: id in groups ==>
          (groups[id].inviteCode.None? <==> groups[id].isPublic) && groups[id].ownerId in users)
  }

  /** At most one row per (group, user) holds by construction of the map;
      every row names a group and a user, the owner of every group has a
      row, and only the owner's row has the owner role. */
  ghost predicate MembersOk(members: map<(nat, nat), Role>, groups: map<nat, Group>, users: map<nat, User>) {
    && (forall k :: k in members ==>
          k.0 in groups && k.1 in users && (members[k] == Owner <==> k.1 == groups[k.0].ownerId))
    && (forall id :: id in groups ==> (id, groups[id].ownerId) in members)
  }

  /** `INSERT OR IGNORE INTO group_members`: a new row only when the
      (group, user) pair has none; an existing row and its role stay. */
  function InsertOrIgnore(members: map<(nat, nat), Role>, key: (nat, nat), role: Role): (m: map<(nat, nat), Role>)
    ensures key in m && m.Keys == members.Keys + {key}
    ensures key in members ==> m[key] == members[key]
    ensures key !in members ==> m[key] == role
    ensures forall k :: k in members ==> m[k] == members[k]
  {
    if key in members then members else members[key := role]
  }

  /** Joining again changes nothing, whatever role the second join asks for. */
  lemma InsertOrIgnoreIdempotent(members: map<(nat, nat), Role>, key: (nat, nat), first: Role, again: Role)
    ensures InsertOrIgnore(InsertOrIgnore(members, key, first), key, again) == InsertOrIgnore(members, key, first)
  {
  }

  /** `SELECT * FROM groups WHERE invite_code=?` then `fetchone()`: with no
      ORDER BY and no index the table is scanned in id order, so the first
      match is the lowest id among the groups below `below`. */
  function LowestWithCode(groups: map<nat, Group>, code: string, below: nat): (r: Option<nat>)
    ensures r.Some? ==> r.value < below && r.value in groups && groups[r.value].inviteCode == Some(code)
    ensures r.Some? ==> forall id :: id in groups && id < r.value ==> groups[id].inviteCode != Some(code)
    ensures r.None? ==> forall id :: id in groups && id < below ==> groups[id].inviteCode != Some(code)
    decreases below
  {
    if below == 0 then None
    else
      var earlier := LowestWithCode(groups, code, below - 1);
      if earlier.Some? then earlier
      else if below - 1 in groups && groups[below - 1].inviteCode == Some(code) then Some(below - 1)
      else None
  }

  // ---------- the messages table ----------

  ghost predicate LogOk(messages: seq<Message>, nextMessageId: nat, users: map<nat, User>) {
    && 1 <= nextMessageId
    && (forall i :: 0 <= i < |messages| ==>
          1 <= messages[i].id < nextMessageId && messages[i].userId in users)
    && (forall i, j :: 0 <= i < j < |messages| ==> messages[i].id < messages[j].id)
  }

  /** `SELECT messages.*, users.username FROM messages JOIN users ...
      WHERE group_id=? ORDER BY id ASC` over a log kept in id order: the
      group's messages whose author still exists, in log order. */
  function History(log: seq<Message>, users: map<nat, User>, gid: int): (lines: seq<ChatLine>)
    ensures |lines| <= |log|
    ensures forall i :: 0 <= i < |lines| ==>
      lines[i].message in log && lines[i].message.groupId == gid
      && lines[i].message.userId in users && lines[i].username == users[lines[i].message.userId].username
  {
    if log == [] then []
    else
      var m := log[|log| - 1];
      var earlier := History(log[..|log| - 1], users, gid);
      assert forall i :: 0 <= i < |earlier| ==> earlier[i].message in log;
      earlier + (if m.groupId == gid && m.userId in users then [ChatLine(m, users[m.userId].username)] else [])
  }

  /** Every message of the group by an existing author is in its history. */
  lemma {:induction false} HistoryComplete(log: seq<Message>, users: map<nat, User>, gid: int, k: nat)
    requires k < |log| && log[k].groupId == gid && log[k].userId in users
    ensures ChatLine(log[k], users[log[k].userId].username) in History(log, users, gid)
    decreases |log|
  {
    if k < |log| - 1 {
      HistoryComplete(log[..|log| - 1], users, gid, k);
    }
  }

  /** A log in increasing id order gives a history in increasing id order. */
  lemma {:induction false} HistoryAscending(log: seq<Message>, users: map<nat, User>, gid: int)
    requires forall i, j :: 0 <= i < j < |log| ==> log[i].id < log[j].id
    ensures forall i, j :: 0 <= i < j < |History(log, users, gid)| ==>
      History(log, users, gid)[i].message.id < History(log, users, gid)[j].message.id
    decreases |log|
  {
    if log != [] {
      var prefix := log[..|log| - 1];
      HistoryAscending(prefix, users, gid);
      var earlier := History(prefix, users, gid);
      forall i | 0 <= i < |earlier| ensures earlier[i].message.id < log[|log| - 1].id {
        var j :| 0 <= j < |prefix| && prefix[j] == earlier[i].message;
      }
    }
  }

  /** Appending a message extends the history of its own group by exactly
      that message (its author existing) and leaves every other group's
      history as it was. */
  lemma HistoryAfterAppend(log: seq<Message>, users: map<nat, User>, m: Message, gid: int)
    requires m.userId in users
    ensures History(log + [m], users, gid)
         == History(log, users, gid) + (if m.groupId == gid then [ChatLine(m, users[m.userId].username)] else [])
  {
    assert (log + [m])[..|log|] == log;
  }

  // ---------- what the handlers preserve ----------

  /** The four tables together are consistent. */
  ghost predicate TablesOk(users: map<nat, User>, nextUserId: nat, groups: map<nat, Group>, nextGroupId: nat,
                           members: map<(nat, nat), Role>, messages: seq<Message>, nextMessageId: nat) {
    && AccountsOk(users, nextUserId)
    && GroupsOk(groups, nextGroupId, users)
    && MembersOk(members, groups, users)
    && LogOk(messages, nextMessageId, users)
  }

  /** Deleting a row just inserted under a fresh key restores the table. */
  lemma RemoveInserted<K, V>(m: map<K, V>, k: K, v: V)
    requires k !in m
    ensures m[k := v] - {k} == m
  {
  }

  /** Registration inserts a fresh, unverified account under the next id;
      when the code cannot be mailed the row goes again but the id stays used. */
  lemma RegisterKeepsTables(users: map<nat, User>, nextUserId: nat, groups: map<nat, Group>, nextGroupId: nat,
                            members: map<(nat, nat), Role>, messages: seq<Message>, nextMessageId: nat, u: User)
    requires TablesOk(users, nextUserId, groups, nextGroupId, members, messages, nextMessageId)
    requires OtpPaired(u) && u.username != [] && u.email != []
    requires !UsernameTaken(users, u.username) && !EmailTaken(users, u.email)
    ensures nextUserId !in users
    ensures TablesOk(users[nextUserId := u], nextUserId + 1, groups, nextGroupId, members, messages, nextMessageId)
    ensures TablesOk(users, nextUserId + 1, groups, nextGroupId, members, messages, nextMessageId)
  {
  }

  /** Verification marks an account verified and clears its code. */
  lemma VerifyKeepsTables(users: map<nat, User>, nextUserId: nat, groups: map<nat, Group>, nextGroupId: nat,
                          members: map<(nat, nat), Role>, messages: seq<Message>, nextMessageId: nat, uid: nat)
    requires TablesOk(users, nextUserId, groups, nextGroupId, members, messages, nextMessageId)
    requires uid in users
    ensures TablesOk(users[uid := users[uid].(isVerified := true, otpCode := None, otpExpires := None)], nextUserId,
                     groups, nextGroupId, members, messages, nextMessageId)
  {
    var v := users[uid := users[uid].(isVerified := true, otpCode := None, otpExpires := None)];
    assert forall a :: a in v ==> v[a].username == users[a].username && v[a].email == users[a].email;
    assert v.Keys == users.Keys;
  }

  /** Creating a group under the next id together with its owner's row. */
  lemma CreateKeepsTables(users: map<nat, User>, nextUserId: nat, groups: map<nat, Group>, nextGroupId: nat,
                          members: map<(nat, nat), Role>, messages: seq<Message>, nextMessageId: nat, grp: Group)
    requires TablesOk(users, nextUserId, groups, nextGroupId, members, messages, nextMessageId)
    requires grp.ownerId in users && !NameTaken(groups, grp.name)
    requires grp.inviteCode.None? <==> grp.isPublic
    ensures InsertOrIgnore(members, (nextGroupId, grp.ownerId), Owner) == members[(nextGroupId, grp.ownerId) := Owner]
    ensures TablesOk(users, nextUserId, groups[nextGroupId := grp], nextGroupId + 1,
                     InsertOrIgnore(members, (nextGroupId, grp.ownerId), Owner), messages, nextMessageId)
  {
    var gid := nextGroupId;
    assert gid !in groups;
    assert (gid, grp.ownerId) !in members;
    var groups' := groups[gid := grp];
    var members' := members[(gid, grp.ownerId) := Owner];
    assert GroupsOk(groups', gid + 1, users) by {
      forall a, b | a in groups' && b in groups' && a != b
        ensures groups'[a].name != groups'[b].name
      {
        if a == gid || b == gid {
          assert NameTaken(groups, groups'[if a == gid then b else a].name);
        }
      }
    }
    assert MembersOk(members', groups', users) by {
      forall k | k in members'
        ensures k.0 in groups' && k.1 in users && (members'[k] == Owner <==> k.1 == groups'[k.0].ownerId)
      {
        if k != (gid, grp.ownerId) {
          assert k in members && k.0 != gid;
        }
      }
    }
  }

  /** A user joining an existing group as a member. */
  lemma JoinKeepsTables(users: map<nat, User>, nextUserId: nat, groups: map<nat, Group>, nextGroupId: nat,
                        members: map<(nat, nat), Role>, messages: seq<Message>, nextMessageId: nat, gid: nat, uid: nat)
    requires TablesOk(users, nextUserId, groups, nextGroupId, members, messages, nextMessageId)
    requires gid in groups && uid in users
    ensures TablesOk(users, nextUserId, groups, nextGroupId, InsertOrIgnore(members, (gid, uid), Member),
                     messages, nextMessageId)
  {
  }

  /** Appending a message under the next id by an existing author. */
  lemma PostKeepsTables(users: map<nat, User>, nextUserId: nat, groups: map<nat, Group>, nextGroupId: nat,
                        members: map<(nat, nat), Role>, messages: seq<Message>, nextMessageId: nat, m: Message)
    requires TablesOk(users, nextUserId, groups, nextGroupId, members, messages, nextMessageId)
    requires m.id == nextMessageId && m.userId in users
    ensures TablesOk(users, nextUserId, groups, nextGroupId, members, messages + [m], nextMessageId + 1)
  {
  }

  // ---------- the chat room key ----------

  /** `int(room.split("_")[1])`, with a missing room, a missing second
      segment or an unreadable number all read as failure (None). */
  function RoomGroupId(room: Option<string>): Option<int> {
    match room
    case None => None
    case Some(r) =>
      var parts := Text.Split(r, '_');
      if |parts| < 2 then None else Text.ParseInt(parts[1])
  }

  /** The room name the client joins for group `gid`. */
  function RoomName(gid: nat): string {
    "group_" + Text.Decimal(gid)
  }

  /** The room name of any id SQLite can store reads back as that id. */
  lemma RoomNameRoundTrip(gid: nat)
    requires gid <= SqliteIntMax
    ensures RoomGroupId(Some(RoomName(gid))) == Some(gid)
  {
    assert Text.Pow10(10) == 10_000_000_000;
    assert Text.Pow10(19) == 10_000_000_000_000_000_000;
    Text.DecimalLength(gid, 19);
    var d := Text.Decimal(gid);
    assert '_' !in "group" && '_' !in d by {
      assert forall i :: 0 <= i < |d| ==> Text.IsDigit(d[i]);
    }
    Text.SplitAfterPiece("group", '_', d);
    Text.SplitWhole(d, '_');
    assert RoomName(gid) == "group" + ['_'] + d;
    Text.ParseIntDecimal(gid);
  }

  /** Only the second segment matters: any prefix before the first '_' and
      anything after a further '_' are ignored, and a negative number is
      read as a (nonexistent) group id. */
  lemma RoomGroupIdSecondSegment(prefix: string, n: nat, suffix: string)
    requires '_' !in prefix && |Text.Decimal(n)| <= Text.MaxStrDigits
    ensures RoomGroupId(Some(prefix + "_" + Text.Decimal(n) + "_" + suffix)) == Some(n)
    ensures RoomGroupId(Some(prefix + "_-" + Text.Decimal(n))) == Some(-(n as int))
  {
    var d := Text.Decimal(n);
    assert '_' !in d && '_' !in "-" + d by {
      assert forall i :: 0 <= i < |d| ==> Text.IsDigit(d[i]);
    }
    Text.SplitAfterPiece(prefix, '_', d + "_" + suffix);
    Text.SplitAfterPiece(d, '_', suffix);
    assert prefix + "_" + d + "_" + suffix == prefix + ['_'] + (d + ['_'] + suffix);
    Text.SplitAfterPiece(prefix, '_', "-" + d);
    Text.SplitWhole("-" + d, '_');
    assert prefix + "_-" + d == prefix + ['_'] + ("-" + d);
    Text.ParseIntDecimal(n);
  }

  /** A second segment longer than Python's digit limit is unreadable,
      even when it is a small id padded with zeros. */
  lemma RoomGroupIdDigitLimit(prefix: string, digits: string)
    requires '_' !in prefix && Text.AllDigits(digits) && |digits| > Text.MaxStrDigits
    ensures RoomGroupId(Some(prefix + "_" + digits)) == None
  {
    assert '_' !in digits by {
      assert forall i :: 0 <= i < |digits| ==> Text.IsDigit(digits[i]);
    }
    Text.SplitAfterPiece(prefix, '_', digits);
    Text.SplitWhole(digits, '_');
    assert prefix + "_" + digits == prefix + ['_'] + digits;
    Text.ParseIntDigitLimit(digits);
  }

  /** A second segment holding an information separator is unreadable,
      even around an otherwise valid id: `int` does not skip it. */
  lemma RoomGroupIdInfoSeparator(prefix: string, segment: string)
    requires '_' !in prefix && '_' !in segment && Text.HasInfoSeparator(segment)
    ensures RoomGroupId(Some(prefix + "_" + segment)) == None
  {
    Text.SplitAfterPiece(prefix, '_', segment);
    Text.SplitWhole(segment, '_');
    assert prefix + "_" + segment == prefix + ['_'] + segment;
  }

  /** A room name without '_' carries no group id. */
  lemma RoomWithoutSeparator(room: string)
    requires '_' !in room
    ensures RoomGroupId(Some(room)) == None
  {
    Text.SplitWhole(room, '_');
  }

  // ---------- the application state ----------

  class App {
    var users: map<nat, User>
    var nextUserId: nat
    var groups: map<nat, Group>
    var nextGroupId: nat
    var members: map<(nat, nat), Role>
    var messages: seq<Message>
    var nextMessageId: nat
    var sessions: map<Client, Session>
    var socketSessions: map<Conn, Session>

    ghost predicate Valid()
      reads this
    {
      TablesOk(users, nextUserId, groups, nextGroupId, members, messages, nextMessageId)
    }

    /** `init_db` on an empty database; no browser has a session or a
        socket connection yet. */
    constructor ()
      ensures Valid()
      ensures users == map[] && groups == map[] && members == map[] && messages == []
      ensures nextUserId == 1 && nextGroupId == 1 && nextMessageId == 1
      ensures sessions == map[] && socketSessions == map[]
    {
      users, nextUserId := map[], 1;
      groups, nextGroupId := map[], 1;
      members := map[];
      messages, nextMessageId := [], 1;
      sessions := map[];
      socketSessions := map[];
    }

    /** The session cookie `c` carries (empty when it carries none). */
    function SessionOf(c: Client): Session
      reads this`sessions
    {
      if c in sessions then sessions[c] else NoSession
    }

    /** `session.get("user_id")` in an HTTP request. */
    function SessionUserId(c: Client): (r: Option<nat>)
      reads this`sessions
      ensures r.Some? <==> SessionOf(c).userId.Some? && SessionOf(c).userId.value != 0
      ensures r.Some? ==> r == SessionOf(c).userId
    {
      UserIdOf(SessionOf(c))
    }

    /** The connection's own copy of the session (empty for a connection
        that never connected). */
    function SocketSessionOf(conn: Conn): Session
      reads this`socketSessions
    {
      if conn in socketSessions then socketSessions[conn] else NoSession
    }

    /** Browser `c` opens socket connection `conn`: Flask-SocketIO copies
        the browser's session as it stands now into that connection, and
        socket handlers on it read that copy from then on. A later login or
        logout over HTTP is not seen by it, and another connection of the
        same browser keeps its own copy. */
    method Connect(c: Client, conn: Conn)
      requires Valid()
      modifies this`socketSessions
      ensures Valid()
      ensures socketSessions == old(socketSessions)[conn := SessionOf(c)]
      ensures SocketSessionOf(conn) == SessionOf(c)
      ensures forall other :: other != conn ==> SocketSessionOf(other) == old(SocketSessionOf(other))
    {
      socketSessions := socketSessions[conn := SessionOf(c)];
    }

    /** `current_user()`, the `g.user` that `login_required` tests: the
        session's user id, provided that user still exists. */
    function CurrentUser(c: Client): (r: Option<nat>)
      reads this`sessions, this`users
      ensures r.Some? <==> SessionUserId(c).Some? && SessionUserId(c).value in users
      ensures r.Some? ==> r.value in users && SessionOf(c).userId == Some(r.value)
    {
      match SessionUserId(c)
      case Some(uid) => if uid in users then Some(uid) else None
      case None => None
    }

    /** POST /register. `salt`, `draw` and `now` stand for the hash's random
        salt, `secrets.randbelow(1000000)` and the clock; `mailDelivered`
        is whether `send_otp_email` returned without raising. */
    method Register(c: Client, usernameField: string, emailField: string, password: string,
                    salt: string, draw: nat, now: int, mailDelivered: bool) returns (resp: Response)
      requires Valid()
      requires draw < Otp.CodeRange
      modifies this`users, this`nextUserId, this`sessions
      ensures Valid()
      ensures var username, email := Text.Strip(usernameField), NormalizeEmail(emailField);
        if username == [] || email == [] || password == [] then
          && resp == Redirect(RegisterForm, Some(AllFieldsRequired))
          && users == old(users) && nextUserId == old(nextUserId) && sessions == old(sessions)
        else if UsernameTaken(old(users), username) || EmailTaken(old(users), email) then
          && resp == Redirect(RegisterForm, Some(AccountExists))
          && users == old(users) && nextUserId == old(nextUserId) && sessions == old(sessions)
        else if !mailDelivered then
          // the inserted row is deleted again; its id is not reused
          && resp == Redirect(RegisterForm, Some(OtpNotSent))
          && users == old(users) && nextUserId == old(nextUserId) + 1 && sessions == old(sessions)
        else
          && resp == Redirect(VerifyForm, Some(OtpSent))
          && nextUserId == old(nextUserId) + 1
          && users == old(users)[old(nextUserId) := User(username, email, HashPassword(password, salt), "", None,
                                                          false, Some(Otp.FormatCode(draw)), Some(Otp.IssuedExpiry(now)))]
          && sessions == old(sessions)[c := old(SessionOf(c)).(pendingEmail := Some(email))]
    {
      var username := Text.Strip(usernameField);
      var email := NormalizeEmail(emailField);
      if username == [] || email == [] || password == [] {
        return Redirect(RegisterForm, Some(AllFieldsRequired));
      }
      if UsernameTaken(users, username) || EmailTaken(users, email) {
        // sqlite3.IntegrityError from a UNIQUE column
        return Redirect(RegisterForm, Some(AccountExists));
      }
      var account := User(username, email, HashPassword(password, salt), "", None,
                          false, Some(Otp.FormatCode(draw)), Some(Otp.IssuedExpiry(now)));
      resp := Enrol(c, account, mailDelivered);
    }

    /** The second half of POST /register, once the fields are accepted:
        the new row is stored with its code (the INSERT and the UPDATE that
        sets the code act as one step; the moment between their commits is
        not modelled), then deleted again when the code cannot be mailed, its id
        staying used; otherwise the browser is sent on to verification. */
    method Enrol(c: Client, account: User, mailDelivered: bool) returns (resp: Response)
      requires Valid()
      requires OtpPaired(account) && account.username != [] && account.email != []
      requires !UsernameTaken(users, account.username) && !EmailTaken(users, account.email)
      modifies this`users, this`nextUserId, this`sessions
      ensures Valid()
      ensures nextUserId == old(nextUserId) + 1
      ensures !mailDelivered ==>
        resp == Redirect(RegisterForm, Some(OtpNotSent)) && users == old(users) && sessions == old(sessions)
      ensures mailDelivered ==>
        && resp == Redirect(VerifyForm, Some(OtpSent))
        && users == old(users)[old(nextUserId) := account]
        && sessions == old(sessions)[c := old(SessionOf(c)).(pendingEmail := Some(account.email))]
    {
      var id := nextUserId;
      RegisterKeepsTables(users, id, groups, nextGroupId, members, messages, nextMessageId, account);
      RemoveInserted(users, id, account);
      users := users[id := account];
      nextUserId := nextUserId + 1;
      if !mailDelivered {
        users := users - {id};
        return Redirect(RegisterForm, Some(OtpNotSent));
      }
      sessions := sessions[c := SessionOf(c).(pendingEmail := Some(account.email))];
      resp := Redirect(VerifyForm, Some(OtpSent));
    }

    /** POST /verify with the submitted `otp` field (absent reads as ""). */
    method Verify(c: Client, otpField: string, now: int) returns (resp: Response)
      requires Valid()
      modifies this`users, this`sessions
      ensures Valid()
      ensures var pending := old(SessionOf(c)).pendingEmail;
        if pending.None? || pending.value == [] then
          resp == Redirect(RegisterForm, Some(NoPendingVerification)) && users == old(users) && sessions == old(sessions)
        else match UserByEmail(old(users), pending.value)
          case None =>
            resp == Redirect(RegisterForm, Some(PendingUserNotFound)) && users == old(users) && sessions == old(sessions)
          case Some(uid) =>
            var u := old(users)[uid];
            if Otp.Accepts(Text.Strip(otpField), u.otpCode, u.otpExpires, now) then
              && resp == Redirect(LoginForm, Some(EmailVerified))
              && users == old(users)[uid := u.(isVerified := true, otpCode := None, otpExpires := None)]
              && sessions == old(sessions)[c := old(SessionOf(c)).(pendingEmail := None)]
            else
              resp == Redirect(VerifyForm, Some(InvalidOrExpiredOtp)) && users == old(users) && sessions == old(sessions)
    {
      var pending := SessionOf(c).pendingEmail;
      if pending.None? || pending.value == [] {
        return Redirect(RegisterForm, Some(NoPendingVerification));
      }
      var found := UserByEmail(users, pending.value);
      if found.None? {
        return Redirect(RegisterForm, Some(PendingUserNotFound));
      }
      var uid := found.value;
      var u := users[uid];
      var code := Text.Strip(otpField);
      if !Otp.Accepts(code, u.otpCode, u.otpExpires, now) {
        return Redirect(VerifyForm, Some(InvalidOrExpiredOtp));
      }
      VerifyKeepsTables(users, nextUserId, groups, nextGroupId, members, messages, nextMessageId, uid);
      users := users[uid := u.(isVerified := true, otpCode := None, otpExpires := None)];
      sessions := sessions[c := SessionOf(c).(pendingEmail := None)];
      resp := Redirect(LoginForm, Some(EmailVerified));
    }

    /** POST /login. */
    method Login(c: Client, emailField: string, password: string) returns (resp: Response)
      requires Valid()
      modifies this`sessions
      ensures Valid()
      ensures var email := NormalizeEmail(emailField);
        match UserByEmail(users, email)
        case None =>
          resp == Render(LoginForm, Some(InvalidCredentials)) && sessions == old(sessions)
        case Some(uid) =>
          if !CheckPassword(users[uid].passwordHash, password) then
            resp == Render(LoginForm, Some(InvalidCredentials)) && sessions == old(sessions)
          else if !users[uid].isVerified then
            && resp == Redirect(VerifyForm, Some(VerifyBeforeLogin))
            && sessions == old(sessions)[c := old(SessionOf(c)).(pendingEmail := Some(email))]
          else
            && resp == Redirect(Home, None)
            && sessions == old(sessions)[c := old(SessionOf(c)).(userId := Some(uid))]
    {
      var email := NormalizeEmail(emailField);
      var found := UserByEmail(users, email);
      if found.Some? && CheckPassword(users[found.value].passwordHash, password) {
        var uid := found.value;
        if !users[uid].isVerified {
          sessions := sessions[c := SessionOf(c).(pendingEmail := Some(email))];
          return Redirect(VerifyForm, Some(VerifyBeforeLogin));
        }
        sessions := sessions[c := SessionOf(c).(userId := Some(uid))];
        return Redirect(Home, None);
      }
      resp := Render(LoginForm, Some(InvalidCredentials));
    }

    /** GET /groups: every group, newest first, with the viewer's
        membership and the owner's name. */
    method ListGroups(c: Client) returns (resp: Response)
      requires Valid()
      ensures CurrentUser(c).None? ==> resp == Redirect(LoginForm, Some(LoginRequired))
      ensures CurrentUser(c).Some? ==>
        && resp.GroupListing?
        && |resp.rows| == nextGroupId - 1
        && forall k :: 0 <= k < |resp.rows| ==>
             var id := nextGroupId - 1 - k;
             && resp.rows[k].id == id && id in groups && resp.rows[k].group == groups[id]
             && resp.rows[k].isMember == ((id, CurrentUser(c).value) in members)
             && resp.rows[k].ownerName == (if groups[id].ownerId in users then users[groups[id].ownerId].username
                                          else UnknownOwner)
    {
      var me := CurrentUser(c);
      if me.None? {
        return Redirect(LoginForm, Some(LoginRequired));
      }
      var uid := me.value;
      var rows: seq<GroupRow> := [];
      var id := nextGroupId - 1;
      while id > 0
        invariant 0 <= id <= nextGroupId - 1
        invariant |rows| == nextGroupId - 1 - id
        invariant forall k :: 0 <= k < |rows| ==>
             var gid := nextGroupId - 1 - k;
             && rows[k].id == gid && gid in groups && rows[k].group == groups[gid]
             && rows[k].isMember == ((gid, uid) in members)
             && rows[k].ownerName == (if groups[gid].ownerId in users then users[groups[gid].ownerId].username
                                     else UnknownOwner)
      {
        var grp := groups[id];
        var isMember := (id, uid) in members;
        var ownerName := if grp.ownerId in users then users[grp.ownerId].username else UnknownOwner;
        rows := rows + [GroupRow(id, grp, isMember, ownerName)];
        id := id - 1;
      }
      resp := GroupListing(rows);
    }

    /** POST /groups/create. `descriptionField` and `isPublicField` are the
        optional form fields; `token` stands for `secrets.token_urlsafe(8)`. */
    method CreateGroup(c: Client, nameField: string, descriptionField: Option<string>,
                       isPublicField: Option<string>, token: string) returns (resp: Response)
      requires Valid()
      modifies this`groups, this`nextGroupId, this`members
      ensures Valid()
      ensures old(CurrentUser(c)).None? ==>
        && resp == Redirect(LoginForm, Some(LoginRequired))
        && groups == old(groups) && nextGroupId == old(nextGroupId) && members == old(members)
      ensures old(CurrentUser(c)).Some? ==>
        var owner := old(CurrentUser(c)).value;
        var name := Text.Strip(nameField);
        var isPublic := isPublicField.GetOr("1") == "1";
        if NameTaken(old(groups), name) then
          && resp == Redirect(GroupList, Some(GroupNameTaken))
          && groups == old(groups) && nextGroupId == old(nextGroupId) && members == old(members)
        else
          && resp == Redirect(GroupList, Some(if isPublic then PublicGroupCreated else PrivateGroupCreated))
          && nextGroupId == old(nextGroupId) + 1
          && groups == old(groups)[old(nextGroupId) := Group(name, Text.Strip(descriptionField.GetOr("")), isPublic,
                                                              owner, if isPublic then None else Some(token))]
          && members == old(members)[(old(nextGroupId), owner) := Owner]
    {
      var me := CurrentUser(c);
      if me.None? {
        return Redirect(LoginForm, Some(LoginRequired));
      }
      var owner := me.value;
      var name := Text.Strip(nameField);
      var description := Text.Strip(descriptionField.GetOr(""));
      var isPublic := isPublicField.GetOr("1") == "1";
      var inviteCode := if isPublic then None else Some(token);
      if NameTaken(groups, name) {
        // sqlite3.IntegrityError from the UNIQUE name
        return Redirect(GroupList, Some(GroupNameTaken));
      }
      AddGroup(Group(name, description, isPublic, owner, inviteCode));
      resp := Redirect(GroupList, Some(if isPublic then PublicGroupCreated else PrivateGroupCreated));
    }

    /** The two INSERTs of a successful POST /groups/create: the group
        under the next id, then its creator's owner row. */
    method AddGroup(grp: Group)
      requires Valid()
      requires grp.ownerId in users && !NameTaken(groups, grp.name)
      requires grp.inviteCode.None? <==> grp.isPublic
      modifies this`groups, this`nextGroupId, this`members
      ensures Valid()
      ensures groups == old(groups)[old(nextGroupId) := grp] && nextGroupId == old(nextGroupId) + 1
      ensures members == old(members)[(old(nextGroupId), grp.ownerId) := Owner]
    {
      var gid := nextGroupId;
      CreateKeepsTables(users, nextUserId, groups, gid, members, messages, nextMessageId, grp);
      groups := groups[gid := grp];
      nextGroupId := nextGroupId + 1;
      members := InsertOrIgnore(members, (gid, grp.ownerId), Owner);
    }

    /** `INSERT OR IGNORE INTO group_members` with the member role, shared
        by both ways of joining. */
    method AddMember(gid: nat, uid: nat)
      requires Valid()
      requires gid in groups && uid in users
      modifies this`members
      ensures Valid()
      ensures members == InsertOrIgnore(old(members), (gid, uid), Member)
    {
      JoinKeepsTables(users, nextUserId, groups, nextGroupId, members, messages, nextMessageId, gid, uid);
      members := InsertOrIgnore(members, (gid, uid), Member);
    }

    /** POST /groups/join/<group_id>: joins public groups only. An id that
        SQLite cannot bind makes the lookup raise: a server error. */
    method JoinGroup(c: Client, gid: nat) returns (resp: Response)
      requires Valid()
      modifies this`members
      ensures Valid()
      ensures old(CurrentUser(c)).None? ==>
        resp == Redirect(LoginForm, Some(LoginRequired)) && members == old(members)
      ensures old(CurrentUser(c)).Some? ==>
        var uid := old(CurrentUser(c)).value;
        if !FitsSqliteInteger(gid) then
          resp == ServerError && members == old(members)
        else if gid !in groups then
          resp == Redirect(GroupList, Some(GroupNotFound)) && members == old(members)
        else if !groups[gid].isPublic then
          resp == Redirect(GroupList, Some(PrivateGroupNeedsCode)) && members == old(members)
        else
          resp == Redirect(GroupRoom(gid), Some(JoinedGroup)) && members == InsertOrIgnore(old(members), (gid, uid), Member)
    {
      var me := CurrentUser(c);
      if me.None? {
        return Redirect(LoginForm, Some(LoginRequired));
      }
      var uid := me.value;
      if !FitsSqliteInteger(gid) {
        return ServerError;
      }
      if gid !in groups {
        return Redirect(GroupList, Some(GroupNotFound));
      }
      if !groups[gid].isPublic {
        return Redirect(GroupList, Some(PrivateGroupNeedsCode));
      }
      AddMember(gid, uid);
      resp := Redirect(GroupRoom(gid), Some(JoinedGroup));
    }

    /** POST /groups/join_code with the optional `invite_code` field. */
    method JoinByCode(c: Client, codeField: Option<string>) returns (resp: Response)
      requires Valid()
      modifies this`members
      ensures Valid()
      ensures old(CurrentUser(c)).None? ==>
        resp == Redirect(LoginForm, Some(LoginRequired)) && members == old(members)
      ensures old(CurrentUser(c)).Some? ==>
        var uid := old(CurrentUser(c)).value;
        var code := Text.Strip(codeField.GetOr(""));
        if code == [] then
          resp == Redirect(GroupList, Some(InviteCodeRequired)) && members == old(members)
        else match LowestWithCode(groups, code, nextGroupId)
          case None =>
            resp == Redirect(GroupList, Some(InvalidInviteCode)) && members == old(members)
          case Some(gid) =>
            && resp == Redirect(GroupRoom(gid), Some(JoinedPrivateGroup))
            && members == InsertOrIgnore(old(members), (gid, uid), Member)
            && !groups[gid].isPublic
    {
      var me := CurrentUser(c);
      if me.None? {
        return Redirect(LoginForm, Some(LoginRequired));
      }
      var uid := me.value;
      var code := Text.Strip(codeField.GetOr(""));
      if code == [] {
        return Redirect(GroupList, Some(InviteCodeRequired));
      }
      var found := LowestWithCode(groups, code, nextGroupId);
      if found.None? {
        return Redirect(GroupList, Some(InvalidInviteCode));
      }
      var gid := found.value;
      AddMember(gid, uid);
      resp := Redirect(GroupRoom(gid), Some(JoinedPrivateGroup));
    }

    /** GET /groups/<group_id>: the room with its full history, for members
        only; an id SQLite cannot bind is a server error. */
    method EnterGroup(c: Client, gid: nat) returns (resp: Response)
      requires Valid()
      ensures CurrentUser(c).None? ==> resp == Redirect(LoginForm, Some(LoginRequired))
      ensures CurrentUser(c).Some? ==>
        if !FitsSqliteInteger(gid) then resp == ServerError
        else if gid !in groups then resp == Redirect(GroupList, Some(GroupNotFound))
        else if (gid, CurrentUser(c).value) !in members then resp == Redirect(GroupList, Some(JoinFirst))
        else resp == Room(gid, groups[gid], History(messages, users, gid))
    {
      var me := CurrentUser(c);
      if me.None? {
        return Redirect(LoginForm, Some(LoginRequired));
      }
      if !FitsSqliteInteger(gid) {
        return ServerError;
      }
      if gid !in groups {
        return Redirect(GroupList, Some(GroupNotFound));
      }
      if (gid, me.value) !in members {
        return Redirect(GroupList, Some(JoinFirst));
      }
      resp := Room(gid, groups[gid], History(messages, users, gid));
    }

    /** The socket `message` event with its optional `text` and `room`
        fields. The user comes from the connection's copy of the session.
        Neither membership nor the group's existence is checked; a room id
        outside SQLite's INTEGER range makes the INSERT raise, so nothing
        is stored or sent. */
    method OnMessage(conn: Conn, textField: Option<string>, room: Option<string>) returns (relay: Relay)
      requires Valid()
      modifies this`messages, this`nextMessageId
      ensures Valid()
      ensures var text := Text.Strip(textField.GetOr(""));
              var uid := UserIdOf(SocketSessionOf(conn));
              var gid := RoomGroupId(room);
        if text == [] || uid.None? || uid.value !in users || gid.None? || !FitsSqliteInteger(gid.value) then
          relay == Dropped && messages == old(messages) && nextMessageId == old(nextMessageId)
        else
          && relay == Broadcast(room.value, users[uid.value].username, text)
          && messages == old(messages) + [Message(old(nextMessageId), gid.value, uid.value, text)]
          && nextMessageId == old(nextMessageId) + 1
    {
      var text := Text.Strip(textField.GetOr(""));
      if text == [] {
        return Dropped;
      }
      var uid := UserIdOf(SocketSessionOf(conn));
      if uid.None? {
        return Dropped;
      }
      if uid.value !in users {
        return Dropped;
      }
      var gid := RoomGroupId(room);
      if gid.None? || !FitsSqliteInteger(gid.value) {
        return Dropped;
      }
      PostKeepsTables(users, nextUserId, groups, nextGroupId, members, messages, nextMessageId,
                      Message(nextMessageId, gid.value, uid.value, text));
      messages := messages + [Message(nextMessageId, gid.value, uid.value, text)];
      nextMessageId := nextMessageId + 1;
      relay := Broadcast(room.value, users[uid.value].username, text);
    }
  }
}
