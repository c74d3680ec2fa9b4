# HVAC installation verification form — a Dafny model

The form records five fixed checks (airflow, refrigerant, electrical,
controls and ductwork). Each check has a status (`""` until a Pass or Fail
button is pressed) and an ordered list of photos (`{url, fileName}`). All of
this lives in one state value owned by the `App` component in `src/App.jsx`.
Four handlers change it or read it:

- a status change replaces one check's status;
- a photo upload derives a storage object name `uuid + "." + ext` from the
  chosen file. When the upload reports no error, it appends the photo to the
  check's list;
- a photo removal asks storage to delete the object. When that reports no
  error, it drops every photo with that file name from the check's list;
- save sends the whole state, plus a timestamp, to the `verifications` table.
  It does not change the state.

The project has five modules:

- `FormState` (`form_state.dfy`) holds the data model: `CheckName`,
  `Photo`, `CheckRecord` and `Items`, a map from check to record. It also
  holds the pure snapshot-to-snapshot transitions the handlers pass to
  `setVerificationItems`, and the lemmas about them: frame conditions,
  append semantics, filter semantics, order preservation and uniqueness of
  file names.
- `ObjectNaming` (`object_naming.dfy`) models `name.split('.').pop()` and
  the object-name template. `Split` is proved to be inverted by `Join`, in
  both directions. The extension is proved to be the text after the last
  dot.
- `Labels` (`labels.dfy`) models the check heading,
  `key.charAt(0).toUpperCase() + key.slice(1) + ' Verification'`.
- `App` (`app.dfy`) models the state cell as the class `VerificationForm`,
  whose field `items` the handler methods overwrite. Remote results, the
  UUID, the public-URL lookup and the timestamp are parameters. Each method
  also returns the alert text it would show.
- `Wrappers` (`wrappers.dfy`) holds `Option`.

## Model

| member | source | states |
|---|---|---|
| FormState.Initial | src/App.jsx:94-100 | every check has a record, and each has status `""` and no photos |
| FormState.InitialKeys | src/App.jsx:94-100 | the initial key set is exactly the five checks |
| FormState.Key | src/App.jsx:95-99 | each check is stored under a non-empty key made of lower-case ASCII letters (airflow, refrigerant, electrical, controls, ductwork) |
| FormState.SetStatus | src/App.jsx:102-107 | the item's status becomes the new value; its photos, every other check and the key set are unchanged |
| FormState.SetStatusLatestWins | src/App.jsx:102-107 | two status changes to one check equal the second change alone |
| FormState.SetStatusSameIsNoOp | src/App.jsx:102-107 | setting the status a check already has leaves the state equal to before |
| FormState.SetStatusKeepsKnown | src/App.jsx:70-81 | pressing Pass or Fail keeps every status among `""`, `"pass"` and `"fail"` |
| FormState.AddPhoto | src/App.jsx:109-117 | the item's list grows by exactly one: the old list is a prefix and the new photo is last; status, other checks and keys are unchanged |
| FormState.AddPhotoAddsOneOccurrence | src/App.jsx:114 | the photo's multiset count grows by one even if it is already present, so there is no duplicate check |
| FormState.AddPhotoFreshKeepsUnique | src/App.jsx:109-117 | if the new file name is not yet in that check, file names stay unique in every check |
| FormState.AddPhotoDuplicateBreaksUnique | src/App.jsx:109-117 | adding a photo whose file name is already in the list breaks uniqueness, since nothing guards against it |
| FormState.WithoutFileName | src/App.jsx:133 | every photo whose file name differs occurs exactly as often as in the input, and every photo with that file name is gone; the list never grows |
| FormState.WithoutFileNameKeepsOrder | src/App.jsx:133 | the kept photos appear in their original order (a subsequence of the input) |
| FormState.WithoutAbsentFileName | src/App.jsx:133 | filtering by a name no photo has returns the list unchanged |
| FormState.WithoutUniqueFileName | src/App.jsx:133 | with unique names, filtering by the name at index i gives the list without exactly that entry, in order |
| FormState.WithoutFileNameIdempotent | src/App.jsx:133 | filtering twice by one name equals filtering once |
| FormState.WithoutFileNameKeepsUnique | src/App.jsx:133 | filtering keeps file names unique |
| FormState.RemovePhoto | src/App.jsx:129-135 | the item's photos keep every old photo whose file name differs, with the same number of occurrences, and no photo with that file name; status, other checks and keys are unchanged |
| FormState.RemoveAbsentPhotoIsNoOp | src/App.jsx:129-135 | removing a file name the check does not hold leaves the whole state unchanged |
| FormState.RemovePresentPhotoRemovesOne | src/App.jsx:129-135 | with unique names, removing a present photo removes exactly that one entry and keeps the rest in order |
| FormState.RemovePhotoKeepsUnique | src/App.jsx:129-135 | removal keeps file names unique in every check |
| ObjectNaming.Split | src/App.jsx:12 | `split` always yields at least one piece, so `pop()` always has an element to return |
| ObjectNaming.SplitPieces | src/App.jsx:12 | no piece contains the separator, and there is a single piece exactly when the string has no separator |
| ObjectNaming.JoinSplit | src/App.jsx:12 | joining the pieces with the separator gives back the string |
| ObjectNaming.SplitJoin | src/App.jsx:12 | splitting a join of separator-free pieces gives back the pieces |
| ObjectNaming.LastPieceIsTextAfterLastSeparator | src/App.jsx:12 | the last piece is a separator-free suffix: the whole string when there is no separator, otherwise preceded by a separator |
| ObjectNaming.Last | src/App.jsx:12 | `pop()` returns the last element: the array is the remaining prefix followed by it |
| ObjectNaming.Extension | src/App.jsx:12 | `split('.').pop()` is the text after the last dot: a dot-free suffix of the name, preceded by a dot when the name has one, and the whole name when it has none |
| ObjectNaming.NoDotExtension | src/App.jsx:12 | a name with no dot is its own extension |
| ObjectNaming.ObjectName | src/App.jsx:13 | the object name is the UUID, then a dot, then the file's extension |
| ObjectNaming.ObjectNameKeepsExtension | src/App.jsx:12-13 | the object name has the same extension as the chosen file |
| Labels.UpperChar | src/App.jsx:176 | a to z map to A to Z; any other character is unchanged |
| Labels.Label | src/App.jsx:176 | the heading is the key with its first character upper-cased and the rest unchanged, followed by `" Verification"`; an empty key gives `" Verification"` |
| Labels.LabelDistinguishesTails | src/App.jsx:176 | equal headings mean equal key lengths, equal key tails and equal upper-cased first characters |
| Labels.CheckLabelsDistinct | src/App.jsx:173-176 | no two checks share a heading |
| App.UploadedPhoto | src/App.jsx:7-24 | a photo results if and only if a file was chosen and the upload reported no error; its file name is `uuid.ext` and its URL is the public URL of that name |
| App.UploadedPhotoKeepsExtension | src/App.jsx:12-24 | an uploaded photo's stored name keeps the chosen file's extension |
| App.VerificationForm.constructor | src/App.jsx:94-100 | the form starts in the initial state |
| App.VerificationForm.HandleStatusChange | src/App.jsx:102-107 | the new state is the status update of the old one |
| App.VerificationForm.HandlePhotoAdd | src/App.jsx:109-117 | the new state is the old one with the photo appended to the item |
| App.VerificationForm.HandleFileChange | src/App.jsx:7-28 | with no file: no request, no alert, no change. Otherwise: the name sent to storage is `uuid.ext`. An upload error alerts "Failed to upload photo" and changes nothing; success appends the uploaded photo |
| App.VerificationForm.HandlePhotoRemove | src/App.jsx:119-140 | the photo's file name is sent to storage. A remote error alerts "Failed to remove photo" and leaves the state unchanged; success applies the filter to the item |
| App.VerificationForm.HandleSave | src/App.jsx:142-159 | the inserted record carries the current state unmodified plus the given timestamp; the alert depends only on the insert's outcome; the method modifies nothing |

Removing a photo drops every photo with that file name (`filter`,
`src/App.jsx:133`), not just one entry. The two agree whenever file names
within a check are unique, as `RemovePresentPhotoRemovesOne` shows. Nothing
in the code enforces uniqueness: it rests on the client-generated UUID in the
object name (`src/App.jsx:13`) being fresh. `AddPhotoFreshKeepsUnique` takes
that freshness as a hypothesis, `AddPhotoDuplicateBreaksUnique` shows what
happens without it, and `RemovePhotoKeepsUnique` shows removal never breaks it.

## Left out

- Remote storage and table calls (upload, getPublicUrl, remove, insert): foreign library I/O. Each is an input: a `RemoteResult` for upload, remove and insert, and a `string -> string` function for the public URL. A failed destructuring of `getPublicUrl`'s reply is not modelled.
- UUID generation and `new Date().toISOString()`: randomness and the clock. Both are string parameters. UUID freshness is not modelled; it appears only as the hypothesis of `FormState.AddPhotoFreshKeepsUnique`.
- The file's bytes and the `accept="image/*"` filter: only the file name takes part in the logic. `e.target.files[0]` is an `Option<File>`.
- Concurrent, interleaved uploads and removals: each handler is one atomic transition on the current state.
- `handleSave` reads the state captured at render time rather than the latest snapshot. In the atomic model the two are the same.
- `console.error` logging and all rendering, icons and CSS. The alert texts are kept as return values.
- Rendering order of the checks (JavaScript object key order): the state is a `map`, which has no order.
- Handlers called with a key that is not in the state: in the source only keys taken from the state are ever passed (`src/App.jsx:173-181`). The transitions therefore require `item in s`, and the class invariant `Valid` guarantees it.
- Labels.UpperChar: upper-cases only the ASCII letters a to z, not the full Unicode case mapping of `toUpperCase`. Every key of the form is lower-case ASCII (`FormState.Key`).
- FormState.SetStatus: the status is any string, as in the source. `SetStatusKeepsKnown` covers the values the buttons produce.
