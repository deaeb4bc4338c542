/** The logic of the three route handlers that touch the store: `submit`
    (POST /submit), `list_complaints` (GET /reclamacoes) and `complaint_detail`
    (GET /reclamacao/<id>). Rendering, redirects and flashing are not modelled; a
    flashed message is returned as a `Notice`. */
module Handlers {
  import opened Text
  import opened Records
  import opened Store
  import opened Listing

  /** The submitted form: each field is present or not in the request body. */
  datatype Form = Form(
    nome: Option<string>,
    email: Option<string>,
    empresa: Option<string>,
    titulo: Option<string>,
    descricao: Option<string>
  )

  datatype Category = Success | Error

  /** A message flashed to the user with its category. */
  datatype Notice = Notice(category: Category, message: string)

  const MissingFieldsNotice := Notice(Error, "Por favor, preencha todos os campos obrigatórios.")
  const SavedNotice := Notice(Success, "Reclamação enviada com sucesso!")
  const SaveErrorPrefix := "Erro ao salvar a reclamação: "
  const NotFoundNotice := Notice(Error, "Reclamação não encontrada.")

  /** The status every new complaint gets. */
  const Pending := "Pendente"

  /** `request.form.get(name, "").strip()` */
  function Field(v: Option<string>): string {
    Strip(v.GetOr(""))
  }

  /** The check in `submit`: the four required fields are non-empty once stripped;
      the e-mail is not looked at. */
  predicate Acceptable(f: Form) {
    Field(f.nome) != [] && Field(f.empresa) != [] && Field(f.titulo) != [] && Field(f.descricao) != []
  }

  /** A required field passes exactly when it was sent and holds a character that is
      not whitespace; the e-mail field plays no part. */
  lemma AcceptableIff(f: Form)
    ensures Acceptable(f) <==>
      && !AllSpace(f.nome.GetOr(""))
      && !AllSpace(f.empresa.GetOr(""))
      && !AllSpace(f.titulo.GetOr(""))
      && !AllSpace(f.descricao.GetOr(""))
  {
    StripIsEmptyIff(f.nome.GetOr(""));
    StripIsEmptyIff(f.empresa.GetOr(""));
    StripIsEmptyIff(f.titulo.GetOr(""));
    StripIsEmptyIff(f.descricao.GetOr(""));
  }

  /** The record `submit` builds; `id` and `isoNow` (the `isoformat()` of the current
      UTC time) are read from the clock by the caller. */
  function NewEntry(f: Form, id: int, isoNow: string): Complaint {
    Complaint(Some(id), Field(f.nome), Field(f.email), Field(f.empresa), Field(f.titulo),
              Field(f.descricao), Pending, Some(isoNow + "Z"))
  }

  /** Every text field of an accepted record is already stripped (stripping it again
      changes nothing), the four required ones are non-empty, and it is "Pendente". */
  lemma NewEntryWellFormed(f: Form, id: int, isoNow: string)
    requires Acceptable(f)
    ensures var e := NewEntry(f, id, isoNow);
      && e.id == Some(id) && e.status == Pending
      && e.nome != [] && e.empresa != [] && e.titulo != [] && e.descricao != []
      && Strip(e.nome) == e.nome && Strip(e.email) == e.email && Strip(e.empresa) == e.empresa
      && Strip(e.titulo) == e.titulo && Strip(e.descricao) == e.descricao
      && e.createdAt.Some? && |e.createdAt.value| > 0 && e.createdAt.value[|e.createdAt.value| - 1] == 'Z'
  {
    var e := NewEntry(f, id, isoNow);
    assert Strip(e.nome) == e.nome by { StripIdempotent(f.nome.GetOr("")); }
    assert Strip(e.email) == e.email by { StripIdempotent(f.email.GetOr("")); }
    assert Strip(e.empresa) == e.empresa by { StripIdempotent(f.empresa.GetOr("")); }
    assert Strip(e.titulo) == e.titulo by { StripIdempotent(f.titulo.GetOr("")); }
    assert Strip(e.descricao) == e.descricao by { StripIdempotent(f.descricao.GetOr("")); }
  }

  /** `submit`: a rejected form leaves the file alone; an accepted one is appended
      through `add_complaint`, and an error raised while loading or writing the file is
      reported in the notice. */
  method Submit(store: ComplaintStore, f: Form, id: int, isoNow: string, write: WriteOutcome)
    returns (notice: Notice)
    modifies store
    ensures !Acceptable(f) ==> store.file == old(store.file) && notice == MissingFieldsNotice
    ensures Acceptable(f) && old(store.file).Undecodable? ==>
      && store.file == old(store.file)
      && notice == Notice(Error, SaveErrorPrefix + old(store.file).reason)
    ensures Acceptable(f) && !old(store.file).Undecodable? && write.Written? ==>
      && store.file == Stored(old(Loaded(store.file)) + [NewEntry(f, id, isoNow)])
      && notice == SavedNotice
    ensures Acceptable(f) && !old(store.file).Undecodable? && write.WriteFailed? ==>
      && store.file == write.after
      && notice == Notice(Error, SaveErrorPrefix + write.reason)
  {
    if !Acceptable(f) {
      return MissingFieldsNotice;
    }
    var entry := NewEntry(f, id, isoNow);
    var error := store.Add(entry, write);
    match error
    case None =>
      notice := SavedNotice;
    case Some(reason) =>
      notice := Notice(Error, SaveErrorPrefix + reason);
  }

  /** What a read-only route answers: its result, or the error it raises (the request
      then fails without a page of the application). */
  datatype Answer<T> = Answered(value: T) | Raised(reason: string)

  /** `list_complaints`: the loaded complaints, newest `created_at` first, equal keys
      in file order. */
  method ListComplaints(store: ComplaintStore) returns (a: Answer<seq<Complaint>>)
    ensures a.Raised? <==> store.file.Undecodable?
    ensures a.Raised? ==> a.reason == store.file.reason
    ensures a.Answered? ==> a.value == SortByCreatedDesc(Loaded(store.file))
    ensures a.Answered? ==> multiset(a.value) == multiset(Loaded(store.file))
    ensures a.Answered? ==> SortedDesc(a.value)
    ensures a.Answered? ==> forall k :: WithKey(a.value, k) == WithKey(Loaded(store.file), k)
  {
    var loaded, error := store.Load();
    if error.Some? {
      return Raised(error.value);
    }
    var complaints := SortByCreatedDesc(loaded);
    SortIsPermutation(loaded);
    SortIsSorted(loaded);
    forall k ensures WithKey(complaints, k) == WithKey(loaded, k) {
      SortIsStable(loaded, k);
    }
    a := Answered(complaints);
  }

  /** Position `i` holds the first complaint of `complaints` whose id is `id`. */
  ghost predicate IsFirstWithId(complaints: seq<Complaint>, id: int, i: int) {
    && 0 <= i < |complaints|
    && complaints[i].id == Some(id)
    && forall j :: 0 <= j < i ==> complaints[j].id != Some(id)
  }

  /** What `complaint_detail` answers: the detail page of a complaint, or a redirect
      to the listing with a notice. */
  datatype Detail = Show(complaint: Complaint) | RedirectToList(notice: Notice)

  /** `complaint_detail`: the route only matches non-negative integers, hence `nat`. */
  method ComplaintDetail(store: ComplaintStore, complaintId: nat) returns (a: Answer<Detail>)
    ensures a.Raised? <==> store.file.Undecodable?
    ensures a.Raised? ==> a.reason == store.file.reason
    ensures a.Answered? && a.value.Show? ==>
      exists i :: IsFirstWithId(Loaded(store.file), complaintId, i) && a.value.complaint == Loaded(store.file)[i]
    ensures a.Answered? && a.value.RedirectToList? ==>
      && (forall i :: 0 <= i < |Loaded(store.file)| ==> Loaded(store.file)[i].id != Some(complaintId))
      && a.value.notice == NotFoundNotice
  {
    var complaints, error := store.Load();
    if error.Some? {
      return Raised(error.value);
    }
    for i := 0 to |complaints|
      invariant forall j :: 0 <= j < i ==> complaints[j].id != Some(complaintId)
    {
      if complaints[i].id == Some(complaintId) {
        return Answered(Show(complaints[i]));
      }
    }
    return Answered(RedirectToList(NotFoundNotice));
  }

  /** Whenever some complaint has the id, there is a first one; with the contract of
      `ComplaintDetail` this means a present id is always shown, never redirected. */
  lemma {:induction false} PresentIdHasFirst(complaints: seq<Complaint>, id: int, i: int)
    requires 0 <= i < |complaints| && complaints[i].id == Some(id)
    ensures exists j :: 0 <= j <= i && IsFirstWithId(complaints, id, j)
    decreases i
  {
    if j :| 0 <= j < i && complaints[j].id == Some(id) {
      PresentIdHasFirst(complaints, id, j);
    } else {
      assert IsFirstWithId(complaints, id, i);
    }
  }
}
