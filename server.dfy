/** The route handlers of the campus-activity server as one sequential state machine:
    the three tables and the client's session are fields of `App`, each handler that
    writes is a method, and the two read-only listings are functions of the state. */
module Server {
  import opened Records
  import opened Replies
  import opened Guards
  import opened Query

  const Admin := "admin"
  const Mahasiswa := "mahasiswa"

  /** `deskripsi || ""`: an absent or empty description is stored as "". */
  function OrEmpty(deskripsi: Option<string>): string
  {
    if deskripsi.Some? then deskripsi.value else ""
  }

  /** A fresh username registered with a password is what `/login` then finds: the
      first row with that username is the new account, the password verifies, and
      the session becomes the new account. */
  lemma RegisterThenLogin(users: seq<User>, id: int, username: string, email: string, password: string,
                          role: string, salt: int)
    requires forall u :: u in users ==> u.username != username
    ensures var named := WhereEq(users + [User(id, username, email, Hash(password, salt), role)], UsernameOf, username);
            named != [] && Verify(password, named[0].password) &&
            Snapshot(named[0]) == SessionUser(id, username, email, role)
  {
    var u := User(id, username, email, Hash(password, salt), role);
    WhereEqAppend(users, u, UsernameOf, username);
    assert WhereEq(users, UsernameOf, username) == [];
  }

  /** `/register` does not check usernames. When the username is taken, `/login` keeps
      finding the older row, so the new account can log in only with the older
      account's password. */
  lemma ReusedUsernameShadowed(users: seq<User>, id: int, username: string, email: string, password: string,
                               role: string, salt: int)
    requires exists u :: u in users && u.username == username
    ensures var named := WhereEq(users + [User(id, username, email, Hash(password, salt), role)], UsernameOf, username);
            named != [] && named[0] in users && named[0] == WhereEq(users, UsernameOf, username)[0]
  {
    var u := User(id, username, email, Hash(password, salt), role);
    WhereEqAppend(users, u, UsernameOf, username);
    var w := WhereEq(users, UsernameOf, username);
    var v :| v in users && v.username == username;
    assert v in w;
  }

  /** `UPDATE kegiatan SET ... WHERE id = ?`: every row with that id becomes `row`, every
      other row is kept, and the order of the table does not change. */
  function Overwrite(ks: seq<Kegiatan>, id: int, row: Kegiatan): (r: seq<Kegiatan>)
    requires row.id == id
    ensures |r| == |ks|
    ensures forall i :: 0 <= i < |ks| ==> r[i].id == ks[i].id
    ensures forall i :: 0 <= i < |ks| ==> r[i] == if ks[i].id == id then row else ks[i]
    ensures forall k :: k in r <==> (k in ks && k.id != id) || (k == row && exists j :: j in ks && j.id == id)
  {
    if ks == [] then []
    else
      var rest := Overwrite(ks[1..], id, row);
      var head := if ks[0].id == id then row else ks[0];
      assert forall k :: k in ks <==> k == ks[0] || k in ks[1..];
      assert forall k :: k in [head] + rest <==> k == head || k in rest;
      [head] + rest
  }

  /** Sending the same `PUT` twice leaves the table as sending it once. */
  lemma OverwriteIdempotent(ks: seq<Kegiatan>, id: int, row: Kegiatan)
    requires row.id == id
    ensures Overwrite(Overwrite(ks, id, row), id, row) == Overwrite(ks, id, row)
  {
    var once := Overwrite(ks, id, row);
    var twice := Overwrite(once, id, row);
    assert forall i :: 0 <= i < |ks| ==> twice[i] == once[i];
  }

  /** An update keeps activity ids unique, since no id changes. */
  lemma OverwriteKeepsUniqueKey(ks: seq<Kegiatan>, id: int, row: Kegiatan)
    requires row.id == id && UniqueKey(ks, KegiatanIdOf)
    ensures UniqueKey(Overwrite(ks, id, row), KegiatanIdOf)
  {
    var r := Overwrite(ks, id, row);
    forall i, j | 0 <= i < j < |r| ensures KegiatanIdOf(r[i]) != KegiatanIdOf(r[j]) {
      assert KegiatanIdOf(ks[i]) != KegiatanIdOf(ks[j]);
    }
  }

  class App {
    var users: seq<User>
    var kegiatan: seq<Kegiatan>
    var pendaftaran: seq<Pendaftaran>
    /** `req.session.user` of the one client the model follows. */
    var session: Option<SessionUser>
    // AUTO_INCREMENT counters of the three tables.
    var nextUserId: int
    var nextKegiatanId: int
    var nextPendaftaranId: int

    /** The table invariants the handlers keep: email is unique among users, a student
        holds at most one registration per activity, registration ids and activity ids
        are unique and below their counters, and a session is the snapshot of an existing account. */
    ghost predicate Valid()
      reads this
    {
      && UniqueKey(users, EmailOf)
      && UniqueKey(pendaftaran, PairOf)
      && UniqueKey(pendaftaran, PendaftaranIdOf)
      && (forall p :: p in pendaftaran ==> p.id < nextPendaftaranId)
      && UniqueKey(kegiatan, KegiatanIdOf)
      && (forall k :: k in kegiatan ==> k.id < nextKegiatanId)
      && (session.Some? ==> exists u :: u in users && Snapshot(u) == session.value)
    }

    /** An empty database and a client without a session. */
    constructor ()
      ensures Valid()
      ensures users == [] && kegiatan == [] && pendaftaran == [] && session == None
      ensures nextUserId == 1 && nextKegiatanId == 1 && nextPendaftaranId == 1
    {
      users, kegiatan, pendaftaran := [], [], [];
      session := None;
      nextUserId, nextKegiatanId, nextPendaftaranId := 1, 1, 1;
    }

    /** POST /register. Every field is required; an email already in `users` is
        refused; otherwise exactly one account is appended. The session is never set. */
    method Register(username: string, email: string, password: string, role: string, salt: int)
      returns (r: Reply)
      requires Valid()
      modifies this`users, this`nextUserId
      ensures Valid()
      ensures r != Registered ==> users == old(users) && nextUserId == old(nextUserId)
      ensures username == "" || email == "" || password == "" || role == "" ==>
                r == RegisterFieldsMissing
      ensures username != "" && email != "" && password != "" && role != "" ==>
                if exists u :: u in old(users) && u.email == email
                then r == EmailTaken
                else r == Registered && nextUserId == old(nextUserId) + 1 &&
                     users == old(users) + [User(old(nextUserId), username, email, Hash(password, salt), role)]
    {
      if username == "" || email == "" || password == "" || role == "" {
        return RegisterFieldsMissing;
      }
      var sameEmail := WhereEq(users, EmailOf, email);
      if sameEmail != [] {
        assert sameEmail[0] in users;
        return EmailTaken;
      }
      var u := User(nextUserId, username, email, Hash(password, salt), role);
      AppendKeepsUniqueKey(users, EmailOf, u);
      users := users + [u];
      nextUserId := nextUserId + 1;
      r := Registered;
    }

    /** POST /login. Looks the account up by username and takes the first row found;
        on success the session becomes that row without its password. Every failure
        leaves the session as it was. */
    method Login(username: string, password: string) returns (r: Reply, user: Option<SessionUser>)
      requires Valid()
      modifies this`session
      ensures Valid()
      ensures username == "" || password == "" ==>
                r == CredentialsMissing && user == None && session == old(session)
      ensures username != "" && password != "" ==>
                var named := WhereEq(users, UsernameOf, username);
                if named == [] then
                  r == UserNotFound && user == None && session == old(session)
                else if !Verify(password, named[0].password) then
                  r == WrongPassword && user == None && session == old(session)
                else
                  r == LoggedIn && session == Some(Snapshot(named[0])) && user == session
    {
      if username == "" || password == "" {
        return CredentialsMissing, None;
      }
      var rows := WhereEq(users, UsernameOf, username);
      if rows == [] {
        return UserNotFound, None;
      }
      var found := rows[0];
      if !Verify(password, found.password) {
        return WrongPassword, None;
      }
      assert found in users;
      session := Some(Snapshot(found));
      r, user := LoggedIn, session;
    }

    /** POST /logout: destroys the session, whatever it was, and always succeeds. */
    method Logout() returns (r: Reply)
      requires Valid()
      modifies this`session
      ensures Valid()
      ensures r == LoggedOut && session == None
    {
      session := None;
      r := LoggedOut;
    }

    /** GET /kegiatan, open to anyone: every activity, latest start date first. */
    function KegiatanListing(): (rows: seq<Kegiatan>)
      reads this
      ensures multiset(rows) == multiset(kegiatan)
      ensures SortedDesc(rows, MulaiOf)
    {
      SortDesc(kegiatan, MulaiOf)
    }

    /** POST /kegiatan behind `requireLogin, requireRole("admin")`. Name, start and end
        are required; a missing description becomes "". */
    method CreateKegiatan(namaKegiatan: string, deskripsi: Option<string>, tanggalMulai: int, tanggalAkhir: int)
      returns (r: Reply)
      requires Valid()
      modifies this`kegiatan, this`nextKegiatanId
      ensures Valid()
      ensures r != KegiatanCreated ==> kegiatan == old(kegiatan) && nextKegiatanId == old(nextKegiatanId)
      ensures LoginThenRole(Admin, session).Halt? ==> r == LoginThenRole(Admin, session).reply
      ensures LoginThenRole(Admin, session).Next? && (namaKegiatan == "" || tanggalMulai == 0 || tanggalAkhir == 0) ==>
                r == KegiatanIncomplete
      ensures LoginThenRole(Admin, session).Next? && namaKegiatan != "" && tanggalMulai != 0 && tanggalAkhir != 0 ==>
                r == KegiatanCreated && nextKegiatanId == old(nextKegiatanId) + 1 &&
                kegiatan == old(kegiatan) + [Kegiatan(old(nextKegiatanId), namaKegiatan, OrEmpty(deskripsi), tanggalMulai, tanggalAkhir)]
    {
      var gate := LoginThenRole(Admin, session);
      if gate.Halt? {
        return gate.reply;
      }
      if namaKegiatan == "" || tanggalMulai == 0 || tanggalAkhir == 0 {
        return KegiatanIncomplete;
      }
      var k := Kegiatan(nextKegiatanId, namaKegiatan, OrEmpty(deskripsi), tanggalMulai, tanggalAkhir);
      assert WhereEq(kegiatan, KegiatanIdOf, k.id) == [];
      AppendKeepsUniqueKey(kegiatan, KegiatanIdOf, k);
      kegiatan := kegiatan + [k];
      nextKegiatanId := nextKegiatanId + 1;
      r := KegiatanCreated;
    }

    /** PUT /kegiatan/:id behind `requireLogin, requireRole("admin")`. Overwrites all four
        fields of the row with that id, without validating them; other rows are kept,
        and a missing id changes nothing and still succeeds. */
    method UpdateKegiatan(id: int, namaKegiatan: string, deskripsi: string, tanggalMulai: int, tanggalAkhir: int)
      returns (r: Reply)
      requires Valid()
      modifies this`kegiatan
      ensures Valid()
      ensures LoginThenRole(Admin, session).Halt? ==>
                r == LoginThenRole(Admin, session).reply && kegiatan == old(kegiatan)
      ensures LoginThenRole(Admin, session).Next? ==>
                r == KegiatanUpdated &&
                kegiatan == Overwrite(old(kegiatan), id, Kegiatan(id, namaKegiatan, deskripsi, tanggalMulai, tanggalAkhir))
    {
      var gate := LoginThenRole(Admin, session);
      if gate.Halt? {
        return gate.reply;
      }
      OverwriteKeepsUniqueKey(kegiatan, id, Kegiatan(id, namaKegiatan, deskripsi, tanggalMulai, tanggalAkhir));
      kegiatan := Overwrite(kegiatan, id, Kegiatan(id, namaKegiatan, deskripsi, tanggalMulai, tanggalAkhir));
      r := KegiatanUpdated;
    }

    /** DELETE /kegiatan/:id behind `requireLogin, requireRole("admin")`. Removes the rows
        with that id and keeps the others; it succeeds also when there is none. */
    method DeleteKegiatan(id: int) returns (r: Reply)
      requires Valid()
      modifies this`kegiatan
      ensures Valid()
      ensures LoginThenRole(Admin, session).Halt? ==>
                r == LoginThenRole(Admin, session).reply && kegiatan == old(kegiatan)
      ensures LoginThenRole(Admin, session).Next? ==>
                r == KegiatanDeleted && kegiatan == WhereNe(old(kegiatan), KegiatanIdOf, id)
    {
      var gate := LoginThenRole(Admin, session);
      if gate.Halt? {
        return gate.reply;
      }
      WhereKeepsUniqueKey(kegiatan, KegiatanIdOf, KeyIsNot(KegiatanIdOf, id));
      kegiatan := WhereNe(kegiatan, KegiatanIdOf, id);
      r := KegiatanDeleted;
    }

    /** POST /daftar behind `requireLogin`. The checks run in this order and the first
        that fails answers, with nothing written: the session's role is "mahasiswa";
        activity id, NIM and study programme are given; the activity exists; the
        deadline has not passed (`now` equal to it is still open); the student is not
        already registered for it. Then exactly one row is appended, copying the id,
        username and email of the session. */
    method Daftar(kegiatanId: int, nim: string, prodi: string, now: int) returns (r: Reply)
      requires Valid()
      modifies this`pendaftaran, this`nextPendaftaranId
      ensures Valid()
      ensures r != Enrolled ==> pendaftaran == old(pendaftaran) && nextPendaftaranId == old(nextPendaftaranId)
      ensures
        if session.None? then r == Unauthorized
        else if session.value.role != Mahasiswa then r == OnlyMahasiswa
        else if kegiatanId == 0 || nim == "" || prodi == "" then r == PendaftaranIncomplete
        else if !exists k :: k in kegiatan && k.id == kegiatanId then r == KegiatanNotFound
        else if now > WhereEq(kegiatan, KegiatanIdOf, kegiatanId)[0].tanggalAkhir then r == RegistrationClosed
        else if exists p :: p in old(pendaftaran) && p.userId == session.value.id && p.kegiatanId == kegiatanId then
          r == AlreadyRegistered
        else
          var s := session.value;
          r == Enrolled && nextPendaftaranId == old(nextPendaftaranId) + 1 &&
          pendaftaran == old(pendaftaran) + [Pendaftaran(old(nextPendaftaranId), s.id, s.username, nim, prodi, s.email, kegiatanId, now)]
    {
      var gate := RequireLogin(session);
      if gate.Halt? {
        return gate.reply;
      }
      var s := session.value;
      if s.role != Mahasiswa {
        return OnlyMahasiswa;
      }
      if kegiatanId == 0 || nim == "" || prodi == "" {
        return PendaftaranIncomplete;
      }
      var found := WhereEq(kegiatan, KegiatanIdOf, kegiatanId);
      if found == [] {
        assert !exists k :: k in kegiatan && k.id == kegiatanId;
        return KegiatanNotFound;
      }
      assert found[0] in kegiatan && found[0].id == kegiatanId;
      if now > found[0].tanggalAkhir {
        return RegistrationClosed;
      }
      var dup := WhereEq(pendaftaran, PairOf, (s.id, kegiatanId));
      if dup != [] {
        assert dup[0] in pendaftaran && PairOf(dup[0]) == (s.id, kegiatanId);
        return AlreadyRegistered;
      }
      assert !exists p :: p in pendaftaran && p.userId == s.id && p.kegiatanId == kegiatanId;
      var p := Pendaftaran(nextPendaftaranId, s.id, s.username, nim, prodi, s.email, kegiatanId, now);
      AppendKeepsUniqueKey(pendaftaran, PairOf, p);
      assert WhereEq(pendaftaran, PendaftaranIdOf, p.id) == [];
      AppendKeepsUniqueKey(pendaftaran, PendaftaranIdOf, p);
      pendaftaran := pendaftaran + [p];
      nextPendaftaranId := nextPendaftaranId + 1;
      r := Enrolled;
    }

    /** GET /pendaftaran/admin behind `requireLogin, requireRole("admin")`: every
        registration joined with its activity's name -- only those of activity
        `kegiatanId` when one is given -- latest registration first. */
    function AdminListing(kegiatanId: Option<int>): (l: Listing<AdminRow>)
      requires Valid()
      reads this
      ensures LoginThenRole(Admin, session).Halt? ==> l == Refused(LoginThenRole(Admin, session).reply)
      ensures LoginThenRole(Admin, session).Next? ==>
                l.Listed? && SortedDesc(l.rows, AdminDaftarOf) && NoDuplicates(l.rows) &&
                forall row :: row in l.rows <==>
                  exists p, k :: p in pendaftaran && k in kegiatan && k.id == p.kegiatanId &&
                                 (kegiatanId.Some? ==> p.kegiatanId == kegiatanId.value) &&
                                 row == AdminRowOf(p, k)
    {
      var gate := LoginThenRole(Admin, session);
      if gate.Halt? then Refused(gate.reply)
      else
        var selected :=
          if kegiatanId.Some? then WhereEq(pendaftaran, DaftarKegiatanOf, kegiatanId.value) else pendaftaran;
        assert forall p :: p in selected <==>
                 p in pendaftaran && (kegiatanId.Some? ==> p.kegiatanId == kegiatanId.value);
        var joined := Join(selected, kegiatan, AdminRowOf);
        assert UniqueKey(selected, PendaftaranIdOf) by {
          if kegiatanId.Some? {
            WhereKeepsUniqueKey(pendaftaran, PendaftaranIdOf, KeyIs(DaftarKegiatanOf, kegiatanId.value));
          }
        }
        JoinNoDuplicates(selected, kegiatan, AdminRowOf, AdminIdOf);
        var rows := SortDesc(joined, AdminDaftarOf);
        SameMembers(rows, joined);
        Listed(rows)
    }

    /** GET /pendaftaran/mahasiswa behind `requireLogin, requireRole("mahasiswa")`: the
        registrations of the session's own account joined with the activity's name,
        latest first. */
    function StudentListing(): (l: Listing<StudentRow>)
      requires Valid()
      reads this
      ensures LoginThenRole(Mahasiswa, session).Halt? ==> l == Refused(LoginThenRole(Mahasiswa, session).reply)
      ensures LoginThenRole(Mahasiswa, session).Next? ==>
                l.Listed? && SortedDesc(l.rows, StudentDaftarOf) && NoDuplicates(l.rows) &&
                forall row :: row in l.rows <==>
                  exists p, k :: p in pendaftaran && k in kegiatan && k.id == p.kegiatanId &&
                                 p.userId == session.value.id && row == StudentRowOf(p, k)
    {
      var gate := LoginThenRole(Mahasiswa, session);
      if gate.Halt? then Refused(gate.reply)
      else
        var own := WhereEq(pendaftaran, UserIdOf, session.value.id);
        WhereKeepsUniqueKey(pendaftaran, PendaftaranIdOf, KeyIs(UserIdOf, session.value.id));
        JoinNoDuplicates(own, kegiatan, StudentRowOf, StudentIdOf);
        var rows := SortDesc(Join(own, kegiatan, StudentRowOf), StudentDaftarOf);
        SameMembers(rows, Join(own, kegiatan, StudentRowOf));
        Listed(rows)
    }
  }
}
