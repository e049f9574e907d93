/** The JSON answers of the handlers: an HTTP status and the `message` text. Every
    answer carries `success`, which is true exactly for status 200. */
module Replies {

  datatype Reply = Reply(status: int, message: string)
  {
    predicate Success() { status == 200 }
  }

  /** What a listing route answers: the rows, or the reply of the guard that refused. */
  datatype Listing<T> = Listed(rows: seq<T>) | Refused(reply: Reply)

  // Guards
  const Unauthorized := Reply(401, "Unauthorized")
  const Forbidden := Reply(403, "Forbidden")

  // POST /register
  const RegisterFieldsMissing := Reply(400, "Semua field wajib diisi")
  const EmailTaken := Reply(400, "Email sudah terdaftar")
  const Registered := Reply(200, "Register berhasil. Silakan login.")

  // POST /login
  const CredentialsMissing := Reply(400, "Masukkan username & password")
  const UserNotFound := Reply(400, "User tidak ditemukan")
  const WrongPassword := Reply(400, "Password salah")
  const LoggedIn := Reply(200, "Login sukses")

  // POST /logout
  const LoggedOut := Reply(200, "Logout sukses")

  // POST, PUT, DELETE /kegiatan
  const KegiatanIncomplete := Reply(400, "Lengkapi data kegiatan")
  const KegiatanCreated := Reply(200, "Kegiatan dibuat")
  const KegiatanUpdated := Reply(200, "Kegiatan diperbarui")
  const KegiatanDeleted := Reply(200, "Kegiatan dihapus")

  // POST /daftar
  const OnlyMahasiswa := Reply(403, "Hanya mahasiswa yang dapat mendaftar")
  const PendaftaranIncomplete := Reply(400, "Lengkapi data pendaftaran")
  const KegiatanNotFound := Reply(400, "Kegiatan tidak ditemukan")
  const RegistrationClosed := Reply(400, "Pendaftaran sudah ditutup (deadline terlewati)")
  const AlreadyRegistered := Reply(400, "Sudah mendaftar kegiatan ini")
  const Enrolled := Reply(200, "Pendaftaran berhasil")
}
