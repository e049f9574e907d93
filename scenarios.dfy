/** Request sequences against a fresh server, proved from the handlers' contracts
    alone: what a client observes across several routes. Each method makes a few
    requests; longer sequences start from the state an earlier method ends in. */
module Scenarios {
  import opened Records
  import opened Replies
  import opened Query
  import opened Server

  const Dosen := User(1, "dosen", "d@x.id", Hash("rahasia", 7), Admin)
  const Alice := User(2, "alice", "a@x.id", Hash("secret1", 11), Mahasiswa)
  const Seminar := Kegiatan(1, "Seminar AI", "", 20250101, 20250110)

  /** The state after an administrator and a student have registered and one activity
      exists, with no session and no registration yet. */
  ghost predicate IsSeeded(app: App)
    reads app
  {
    && app.Valid()
    && app.users == [Dosen, Alice] && app.kegiatan == [Seminar]
    && app.pendaftaran == [] && app.nextPendaftaranId == 1
  }

  /** An administrator registers. */
  method OneAccount() returns (app: App)
    ensures fresh(app) && app.Valid()
    ensures app.users == [Dosen] && app.kegiatan == [] && app.pendaftaran == []
    ensures app.session == None && app.nextUserId == 2
    ensures app.nextKegiatanId == 1 && app.nextPendaftaranId == 1
  {
    app := new App();
    var _ := app.Register("dosen", "d@x.id", "rahasia", Admin, 7);
  }

  /** A student registers after the administrator. */
  method TwoAccounts() returns (app: App)
    ensures fresh(app) && app.Valid()
    ensures app.users == [Dosen, Alice] && app.kegiatan == [] && app.pendaftaran == []
    ensures app.session == None && app.nextKegiatanId == 1 && app.nextPendaftaranId == 1
  {
    app := OneAccount();
    assert EmailOf(Dosen) != "a@x.id";
    var _ := app.Register("alice", "a@x.id", "secret1", Mahasiswa, 11);
  }

  /** The administrator logs in, creates one activity and logs out. */
  method Seeded() returns (app: App)
    ensures fresh(app) && IsSeeded(app) && app.session == None
  {
    app := TwoAccounts();
    WhereEqCons(Dosen, [Alice], UsernameOf, "dosen");
    var _, _ := app.Login("dosen", "rahasia");
    var _ := app.CreateKegiatan("Seminar AI", None, 20250101, 20250110);
    var _ := app.Logout();
  }

  /** A second registration with a taken email is refused and stores nothing. */
  method EmailTakenScenario() returns (first: Reply, second: Reply, users: seq<User>)
    ensures first == Registered && second == EmailTaken
    ensures users == [User(1, "alice", "a@x.id", Hash("secret1", 11), Mahasiswa)]
  {
    var app := new App();
    first := app.Register("alice", "a@x.id", "secret1", Mahasiswa, 11);
    second := app.Register("alice2", "a@x.id", "other", Mahasiswa, 13);
    users := app.users;
  }

  /** A wrong password is refused and leaves the client logged out; the right one logs
      the student in with the stored row minus its password. */
  method LoginScenario() returns (wrong: Reply, right: Reply, session: Option<SessionUser>)
    ensures wrong == WrongPassword && right == LoggedIn
    ensures session == Some(SessionUser(2, "alice", "a@x.id", Mahasiswa))
  {
    var app := TwoAccounts();
    WhereEqCons(Dosen, [Alice], UsernameOf, "alice");
    WhereEqCons(Alice, [], UsernameOf, "alice");
    assert "wrong" != "secret1";
    var user;
    wrong, user := app.Login("alice", "wrong");
    right, user := app.Login("alice", "secret1");
    session := app.session;
  }

  /** The student logs in to the seeded server. */
  method AliceLoggedIn() returns (app: App)
    ensures fresh(app) && IsSeeded(app)
    ensures app.session == Some(SessionUser(2, "alice", "a@x.id", Mahasiswa))
  {
    app := Seeded();
    WhereEqCons(Dosen, [Alice], UsernameOf, "alice");
    WhereEqCons(Alice, [], UsernameOf, "alice");
    var _, _ := app.Login("alice", "secret1");
  }

  /** The student enrols exactly at the deadline; enrolling again is refused as a
      duplicate, and after the deadline as closed. */
  method EnrolmentScenario() returns (replies: seq<Reply>, rows: seq<Pendaftaran>)
    ensures replies == [Enrolled, AlreadyRegistered, RegistrationClosed]
    ensures rows == [Pendaftaran(1, 2, "alice", "12345", "CS", "a@x.id", 1, 20250110)]
  {
    var app := AliceLoggedIn();
    WhereEqCons(Seminar, [], KegiatanIdOf, 1);
    var r0 := app.Daftar(1, "12345", "CS", 20250110);
    var r1 := app.Daftar(1, "12345", "CS", 20250110);
    var r2 := app.Daftar(1, "12345", "CS", 20250111);
    replies, rows := [r0, r1, r2], app.pendaftaran;
  }

  /** The administrator may not enrol. */
  method AdminEnrolScenario() returns (r: Reply, rows: seq<Pendaftaran>)
    ensures r == OnlyMahasiswa && rows == []
  {
    var app := Seeded();
    WhereEqCons(Dosen, [Alice], UsernameOf, "dosen");
    var _, _ := app.Login("dosen", "rahasia");
    r := app.Daftar(1, "99", "TI", 20250101);
    rows := app.pendaftaran;
  }

  /** A student enrolling in an activity that does not exist is refused. */
  method UnknownKegiatanScenario() returns (r: Reply, rows: seq<Pendaftaran>)
    ensures r == KegiatanNotFound && rows == []
  {
    var app := AliceLoggedIn();
    r := app.Daftar(2, "12345", "CS", 20250101);
    rows := app.pendaftaran;
  }

  /** The administrator logs in to the seeded server. */
  method DosenLoggedIn() returns (app: App)
    ensures fresh(app) && IsSeeded(app)
    ensures app.session == Some(SessionUser(1, "dosen", "d@x.id", Admin))
  {
    app := Seeded();
    WhereEqCons(Dosen, [Alice], UsernameOf, "dosen");
    var _, _ := app.Login("dosen", "rahasia");
  }

  /** The public listing shows the seeded activity; after a rename it shows the new
      name. */
  method CatalogScenario() returns (created: seq<Kegiatan>, renamed: seq<Kegiatan>)
    ensures created == [Seminar]
    ensures renamed == [Kegiatan(1, "Seminar ML", "", 20250101, 20250110)]
  {
    var app := DosenLoggedIn();
    created := app.KegiatanListing();
    var _ := app.UpdateKegiatan(1, "Seminar ML", "", 20250101, 20250110);
    assert app.kegiatan == [Kegiatan(1, "Seminar ML", "", 20250101, 20250110)];
    renamed := app.KegiatanListing();
  }

  /** After the administrator deletes the only activity, the public listing is empty. */
  method DeleteScenario() returns (deleted: seq<Kegiatan>)
    ensures deleted == []
  {
    var app := DosenLoggedIn();
    var _ := app.DeleteKegiatan(1);
    deleted := app.KegiatanListing();
  }

  /** `/register` checks only the email and `/login` takes the first row with the
      username: a second account that reuses a username is stored, but cannot log in
      with its own password. */
  method ReusedUsernameScenario() returns (first: Reply, second: Reply, login: Reply)
    ensures first == Registered && second == Registered && login == WrongPassword
  {
    var app := new App();
    first := app.Register("bob", "b1@x.id", "pw-one", Mahasiswa, 1);
    var bob1 := User(1, "bob", "b1@x.id", Hash("pw-one", 1), Mahasiswa);
    assert app.users == [bob1];
    assert "b1@x.id" != "b2@x.id";
    second := app.Register("bob", "b2@x.id", "pw-two", Mahasiswa, 2);
    var bob2 := User(2, "bob", "b2@x.id", Hash("pw-two", 2), Mahasiswa);
    WhereEqCons(bob1, [bob2], UsernameOf, "bob");
    var user;
    login, user := app.Login("bob", "pw-two");
  }
}
