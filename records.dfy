/** The complaint record as `load_complaints` reads it back from the data file: a JSON
    object whose `id` and `created_at` the handlers read with `.get`, so either may be
    missing. */
module Records {

  datatype Option<T> = None | Some(value: T) {
    /** `d.get(key, default)` on the field this option stands for. */
    function GetOr(default: T): T {
      match this
      case Some(v) => v
      case None => default
    }
  }

  datatype Complaint = Complaint(
    id: Option<int>,           // milliseconds since the epoch when it was submitted
    nome: string,
    email: string,
    empresa: string,
    titulo: string,
    descricao: string,
    status: string,
    createdAt: Option<string>  // `created_at`: an ISO-8601 UTC time ending in "Z"
  )

  /** The key `list_complaints` sorts by: `created_at`, or "" when the record has none. */
  function CreatedKey(c: Complaint): string {
    c.createdAt.GetOr("")
  }
}
