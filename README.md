# Complaint store (Flask "Reclame Aqui"-style app), modelled in Dafny

The application lets users submit complaints through a form. It keeps them in one JSON
file, `complaints.json`, and shows them back as a listing and as detail pages. This
project models the logic under the web layer of `projeto/app.py`:

- **Store** (`store.dfy`). The data file is an abstract state: `Absent`, `Unreadable`,
  `Undecodable(reason)` or `Stored(list)`.
  - `Unreadable` is a file whose loading fails in a way `load_complaints` catches:
    invalid JSON (`json.JSONDecodeError`) or an `OSError` on read. It loads as `[]`.
  - `Undecodable` is a file on which `json.load` raises an error that is not caught:
    bytes that are not UTF-8 (`UnicodeDecodeError`) or JSON nested too deeply
    (`RecursionError`). Loading it raises. The listing and detail routes then fail,
    and `submit` flashes the error with the file unchanged.
  - `ComplaintStore` is a class with that state as its one field.
  - `Load` is `load_complaints`, `Save` is `save_complaints`, `Add` is `add_complaint`.
  - A write can fail. The environment's answer to a write, `WriteOutcome`, is a
    parameter. A failed write carries the error text and the state it leaves the file in.
- **Submission** (`handlers.dfy`, `Submit`). The five form fields are stripped.
  - The form is rejected if `nome`, `empresa`, `titulo` or `descricao` is empty after
    stripping. The e-mail is never checked.
  - An accepted form becomes a record with status "Pendente", which is appended.
  - The flashed message is returned as a `Notice` (category and text).
  - The clock readings are parameters: the millisecond `id` and the `isoformat()` text
    that `created_at` is built from.
- **Listing** (`listing.dfy`, `Handlers.ListComplaints`). Complaints are sorted by
  `created_at`, newest first. A missing `created_at` counts as "". Ties keep file order,
  as Python's stable sort does.
- **Detail** (`Handlers.ComplaintDetail`). A loop returns the first complaint whose `id`
  equals the requested one. Otherwise it returns a "not found" notice and a redirect
  to the listing.
- **Python string semantics** (`text.dfy`).
  - `str.strip()` removes exactly the code points CPython counts as whitespace.
  - String `<=` is lexicographic by code point. Dafny's `<` on sequences means
    "proper prefix", so the Python order is defined as `LexLe` and proved to be a
    total order.

The records (`records.dfy`) have the fields of the JSON objects. `id` and `created_at`
are `Option`s because the handlers read them with `.get`.

`save_complaints(load_complaints())` is not a no-op: it gives back the same file only
when the file held a list. An absent or unreadable file is rewritten as `[]`
(`Store.ResaveRestoresIff`).

## Model

| member | source | states |
|---|---|---|
| `Text.Strip` | projeto/app.py:60-64 | The stripped field is a slice of the input. Everything cut off on either side is whitespace, and the result neither starts nor ends with whitespace. |
| `Text.StripIsEmptyIff` | projeto/app.py:66 | A field is empty after stripping if and only if it held only whitespace (or nothing). |
| `Text.StripIdempotent` | projeto/app.py:60-64 | Stripping an already stripped value changes nothing. |
| `Text.LexLeIff` | projeto/app.py:93-97 | The string order used by the sort is Python's: `a` is a prefix of `b`, or at the first differing position `a` has the smaller code point (both directions). |
| `Text.LexLeReflexive` | projeto/app.py:93-97 | The key order is reflexive. |
| `Text.LexLeAntisymmetric` | projeto/app.py:93-97 | Keys that are each `<=` the other are equal. |
| `Text.LexLeTransitive` | projeto/app.py:93-97 | The key order is transitive. |
| `Text.LexLeTotal` | projeto/app.py:93-97 | Any two keys are comparable. |
| `Store.ComplaintStore.Load` | projeto/app.py:24-32 | A missing file loads as []. An unreadable file (invalid JSON or an `OSError` on read) also loads as [], with no error. A stored list loads as itself. Only an undecodable file makes loading raise, with that file's error. |
| `Store.ComplaintStore.Save` | projeto/app.py:35-38 | A successful write replaces the whole file by the list, and loading then gives that same list back. A failed write reports its error to the caller and leaves the file in the state the failure left. |
| `Store.ComplaintStore.Add` | projeto/app.py:41-45 | After a successful write the file holds the previously loaded list with exactly the new entry at the end. That list is empty if the file was absent or unreadable, and earlier entries stay unchanged and in order. A failed write is reported. On an undecodable file the load error is passed on and the file is unchanged. |
| `Store.ResaveRestoresIff` | projeto/app.py:24-38 | Saving what was loaded restores the file state if and only if the file held a list. |
| `Handlers.AcceptableIff` | projeto/app.py:60-66 | The form passes if and only if each of `nome`, `empresa`, `titulo`, `descricao` was sent and holds a non-whitespace character. The e-mail plays no part. |
| `Handlers.NewEntryWellFormed` | projeto/app.py:70-79 | An accepted record carries the clock's id and status "Pendente". Its four required fields are non-empty. Every text field is already stripped. `created_at` ends in "Z". |
| `Handlers.Submit` | projeto/app.py:57-87 | A rejected form leaves the file unchanged and flashes the "fill in the required fields" error. An accepted form appends exactly the new record and flashes success. If loading or writing the file raises, the error notice carries the failure text; when it is the load that raised, the file is unchanged. |
| `Handlers.ListComplaints` | projeto/app.py:90-98 | The route fails exactly when the file is undecodable. Otherwise the listing is a permutation of the loaded complaints. Their `created_at` keys (missing = "") never increase. Complaints with equal keys keep their file order. |
| `Listing.SortIsPermutation` | projeto/app.py:93-97 | The sorted listing has exactly the loaded complaints, each as often as in the file. |
| `Listing.SortIsSorted` | projeto/app.py:93-97 | The sorted listing is in non-increasing `created_at` order. |
| `Listing.SortIsStable` | projeto/app.py:93-97 | For every key, the complaints with that key appear in the same order as in the file. |
| `Listing.SortedUnique` | projeto/app.py:93-97 | Two lists sorted newest first that agree, key by key, on their complaints in order are equal. |
| `Listing.StableSortIsUnique` | projeto/app.py:93-97 | Any stable descending sort of the loaded complaints gives this listing. So the insertion sort used here returns what Python's `sorted(..., reverse=True)` returns. |
| `Handlers.ComplaintDetail` | projeto/app.py:101-109 | The route fails exactly when the file is undecodable. Otherwise the detail page shows the complaint at the first position whose `id` equals the requested one. Otherwise no complaint has that id, and the "not found" error is returned with a redirect to the listing. The store is only read. |
| `Handlers.PresentIdHasFirst` | projeto/app.py:104-106 | Whenever some complaint has the requested id, there is a first such complaint. With `ComplaintDetail`'s contract, a present id is always shown and never answered with "not found". |

## Left out

- Flask plumbing (`render_template`, `redirect`, `url_for`, `flash`, route decorators, `app.run`) and the `index` route. `Submit` always redirects to the form. This is stated here, not in a return value.
- The secret-key configuration (projeto/app.py:17).
- JSON text encoding (`indent=2`, `ensure_ascii=False`, UTF-8). The file is an abstract state.
  - A file holding valid JSON that is not a list of objects is not modelled.
  - Nor are `id` values that are not integers (Python's `True == 1` and `1.0 == 1` would match them), or `created_at` values that are not strings (the sort may raise, or order them by number).
  - Fields other than `id` and `created_at` are always present in the model's records.
- The clock: `int(datetime.utcnow().timestamp() * 1000)` is floating-point and system time, and the ISO formatting is library code. Both are parameters of `Submit`. So nothing is proved about ids growing over time.
- The text of a save error is whatever the failed write reports (`WriteOutcome.reason`). How Python formats an exception into that text is not modelled.
- The state a failed write leaves the file in is unspecified by the code. The model takes it as a parameter of the failure (`WriteFailed.after`).
- The lost-update race between concurrent `add_complaint` calls. The model is sequential.
- The order of Python's sort algorithm (Timsort) is not modelled step by step. `Listing.StableSortIsUnique` proves that every stable descending sort has the same result.
