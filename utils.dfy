/** The nullable column types of database/sql and lib/pq, and the
    convenience constructor of models/utils.go. */
module Utils {

  /** sql.NullString: `str` is meaningful only when `valid` holds. */
  datatype NullString = NullString(str: string, valid: bool)

  /** pq.NullTime; instants are opaque integers. */
  datatype NullTime = NullTime(time: int, valid: bool)

  /** The SQL NULL time value (its instant is Go's zero value). */
  const NullTimeNone := NullTime(0, false)

  /** MakeNullString wraps a Go string as a present (non-NULL) value. */
  function MakeNullString(s: string): (r: NullString)
    ensures r.valid
    ensures r.str == s
  {
    NullString(s, true)
  }

  /** What a NullString reads back as after a round trip through a nullable
      column: Value() writes SQL NULL when `valid` is false, and Scan turns
      NULL into the empty, invalid value, so the text of a NULL is lost. */
  function Stored(n: NullString): NullString {
    if n.valid then n else NullString("", false)
  }

  /** Storage forgets exactly the text of NULL values: two values read back
      alike if and only if they agree on `valid` and, when present, on the
      text. A value made by MakeNullString survives storage unchanged. */
  lemma StoredForgetsOnlyNullText(a: NullString, b: NullString, s: string)
    ensures Stored(a) == Stored(b) <==> a.valid == b.valid && (a.valid ==> a.str == b.str)
    ensures Stored(Stored(a)) == Stored(a)
    ensures Stored(MakeNullString(s)) == MakeNullString(s)
  {
  }
}
