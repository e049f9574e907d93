/** Rows of the three MySQL tables the server talks to (`users`, `kegiatan`,
    `pendaftaran`), the user snapshot kept in the session, the row shapes the two
    registration listings return, and the password digest that stands in for bcrypt. */
module Records {

  datatype Option<+T> = None | Some(value: T)

  /** A salted one-way digest of a password. bcrypt is not modelled: the model keeps
      the password inside the digest, and the rest of the model only ever looks at a
      digest through `Verify`. */
  datatype Digest = Digest(salt: int, secret: string)

  /** `bcrypt.hash(password, 10)`; the random salt is a parameter. */
  function Hash(password: string, salt: int): (d: Digest)
    ensures Verify(password, d)
    ensures forall other :: Verify(other, d) ==> other == password
  {
    Digest(salt, password)
  }

  /** `bcrypt.compare(password, digest)`. */
  predicate Verify(password: string, d: Digest)
  {
    d.secret == password
  }

  /** `bcrypt.compare` re-hashes the candidate with the salt stored in the digest and
      compares: it accepts exactly the password the digest was made from. */
  lemma VerifyRehashes(password: string, d: Digest)
    ensures Verify(password, d) <==> d == Hash(password, d.salt)
  {
    if Verify(password, d) {
      assert d == Digest(d.salt, password);
    }
  }

  /** A row of `users`. The digest is the `password` column. */
  datatype User = User(id: int, username: string, email: string, password: Digest, role: string)

  /** What `req.session.user` holds after a login: the account without its password. */
  datatype SessionUser = SessionUser(id: int, username: string, email: string, role: string)

  /** The session object built from a `users` row: every column but the password. */
  function Snapshot(u: User): SessionUser
  {
    SessionUser(u.id, u.username, u.email, u.role)
  }

  /** The session keeps every column of the account except the password: two rows
      give the same session exactly when they differ at most in their digests. */
  lemma SnapshotForgetsOnlyPassword(u: User, v: User)
    ensures Snapshot(u) == Snapshot(v) <==> u.(password := v.password) == v
  {
  }

  /** A row of `kegiatan`; dates are integer instants. */
  datatype Kegiatan = Kegiatan(id: int, namaKegiatan: string, deskripsi: string, tanggalMulai: int, tanggalAkhir: int)

  /** A row of `pendaftaran`. `nama` and `email` are copied from the session at enrolment
      time; `tanggalDaftar` is the time of the insert. */
  datatype Pendaftaran = Pendaftaran(
    id: int, userId: int, nama: string, nim: string, prodi: string,
    email: string, kegiatanId: int, tanggalDaftar: int)

  /** A row of the administrator's registration listing. */
  datatype AdminRow = AdminRow(
    id: int, nama: string, nim: string, prodi: string, email: string,
    namaKegiatan: string, tanggalDaftar: int)

  /** A row of a student's own registration history (no email column). */
  datatype StudentRow = StudentRow(
    id: int, nama: string, nim: string, prodi: string,
    namaKegiatan: string, tanggalDaftar: int)

  // Column accessors, used as keys of WHERE, ORDER BY and uniqueness constraints.

  function EmailOf(u: User): string { u.email }
  function UsernameOf(u: User): string { u.username }
  function KegiatanIdOf(k: Kegiatan): int { k.id }
  function MulaiOf(k: Kegiatan): int { k.tanggalMulai }
  function UserIdOf(p: Pendaftaran): int { p.userId }
  function PendaftaranIdOf(p: Pendaftaran): int { p.id }
  function DaftarKegiatanOf(p: Pendaftaran): int { p.kegiatanId }
  function PairOf(p: Pendaftaran): (int, int) { (p.userId, p.kegiatanId) }
  function AdminDaftarOf(r: AdminRow): int { r.tanggalDaftar }
  function AdminIdOf(r: AdminRow): int { r.id }
  function StudentIdOf(r: StudentRow): int { r.id }
  function StudentDaftarOf(r: StudentRow): int { r.tanggalDaftar }

  /** `JOIN kegiatan k ON p.kegiatan_id = k.id` projected to the administrator's columns. */
  function AdminRowOf(p: Pendaftaran, k: Kegiatan): AdminRow
  {
    AdminRow(p.id, p.nama, p.nim, p.prodi, p.email, k.namaKegiatan, p.tanggalDaftar)
  }

  /** The same join projected to the student's columns. */
  function StudentRowOf(p: Pendaftaran, k: Kegiatan): StudentRow
  {
    StudentRow(p.id, p.nama, p.nim, p.prodi, k.namaKegiatan, p.tanggalDaftar)
  }
}
