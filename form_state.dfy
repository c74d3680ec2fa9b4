/**
 * The form's state: one record per fixed check, each holding a status and an
 * ordered list of photos, and the snapshot-to-snapshot transitions applied to
 * it (`{...prev, [item]: {...prev[item], ...}}`).
 */
module FormState {

  /** The five fixed checks of the form. */
  datatype CheckName = Airflow | Refrigerant | Electrical | Controls | Ductwork

  /** The key under which a check is stored and saved: a non-empty word of lower-case ASCII letters. */
  function Key(c: CheckName): (k: string)
    ensures |k| > 0
    ensures forall i :: 0 <= i < |k| ==> 'a' <= k[i] <= 'z'
  {
    match c
    case Airflow => "airflow"
    case Refrigerant => "refrigerant"
    case Electrical => "electrical"
    case Controls => "controls"
    case Ductwork => "ductwork"
  }

  /** A stored photo: its public URL and the storage object name. */
  datatype Photo = Photo(url: string, fileName: string)

  /** One check's record: the status (`""` until set) and the photos in upload order. */
  datatype CheckRecord = CheckRecord(status: string, photos: seq<Photo>)

  /** The whole form state, keyed by check. */
  type Items = map<CheckName, CheckRecord>

  /** Every check has a record. */
  predicate Complete(s: Items)
  {
    forall c: CheckName :: c in s
  }

  /** A state holding the five listed checks holds every check. */
  lemma FiveKeysComplete(s: Items)
    requires Airflow in s && Refrigerant in s && Electrical in s && Controls in s && Ductwork in s
    ensures Complete(s)
  {
    forall c: CheckName ensures c in s {
      match c
      case Airflow =>
      case Refrigerant =>
      case Electrical =>
      case Controls =>
      case Ductwork =>
    }
  }

  /** The statuses the form's buttons can produce, plus the unset status. */
  predicate KnownStatus(status: string)
  {
    status == "" || status == "pass" || status == "fail"
  }

  /** Photo file names are pairwise distinct within a list. */
  predicate UniqueFileNames(photos: seq<Photo>)
  {
    forall i, j :: 0 <= i < j < |photos| ==> photos[i].fileName != photos[j].fileName
  }

  /** Within every check, photo file names are pairwise distinct. */
  predicate PhotoNamesUnique(s: Items)
  {
    forall c :: c in s ==> UniqueFileNames(s[c].photos)
  }

  /** Some photo in the list has the given file name. */
  predicate HasFileName(photos: seq<Photo>, fileName: string)
  {
    exists i :: 0 <= i < |photos| && photos[i].fileName == fileName
  }

  /** The state the form starts with. */
  function Initial(): (s: Items)
    ensures Complete(s)
    ensures forall c :: s[c].status == "" && s[c].photos == []
  {
    var empty := CheckRecord("", []);
    var s := map[Airflow := empty, Refrigerant := empty, Electrical := empty,
                 Controls := empty, Ductwork := empty];
    FiveKeysComplete(s);
    s
  }

  /** The keys of the initial state are exactly the five check names. */
  lemma InitialKeys()
    ensures Initial().Keys == {Airflow, Refrigerant, Electrical, Controls, Ductwork}
  {
  }

  /** `handleStatusChange`: replace one check's status. */
  function SetStatus(s: Items, item: CheckName, status: string): (r: Items)
    requires item in s
    ensures r.Keys == s.Keys
    ensures r[item].status == status && r[item].photos == s[item].photos
    ensures forall c :: c in s && c != item ==> r[c] == s[c]
  {
    s[item := s[item].(status := status)]
  }

  /** Setting a status twice leaves only the latest value. */
  lemma SetStatusLatestWins(s: Items, item: CheckName, first: string, second: string)
    requires item in s
    ensures SetStatus(SetStatus(s, item, first), item, second) == SetStatus(s, item, second)
  {
  }

  /** Setting a check to the status it already has changes nothing. */
  lemma SetStatusSameIsNoOp(s: Items, item: CheckName)
    requires item in s
    ensures SetStatus(s, item, s[item].status) == s
  {
  }

  /** Pressing Pass or Fail keeps every status among "", "pass" and "fail". */
  lemma SetStatusKeepsKnown(s: Items, item: CheckName, status: string)
    requires item in s
    requires forall c :: c in s ==> KnownStatus(s[c].status)
    requires status == "pass" || status == "fail"
    ensures forall c :: c in SetStatus(s, item, status) ==> KnownStatus(SetStatus(s, item, status)[c].status)
  {
  }

  /** `handlePhotoAdd`: append a photo to one check's list, with no duplicate check. */
  function AddPhoto(s: Items, item: CheckName, photo: Photo): (r: Items)
    requires item in s
    ensures r.Keys == s.Keys
    ensures |r[item].photos| == |s[item].photos| + 1
    ensures r[item].photos[..|s[item].photos|] == s[item].photos
    ensures r[item].photos[|s[item].photos|] == photo
    ensures r[item].status == s[item].status
    ensures forall c :: c in s && c != item ==> r[c] == s[c]
  {
    s[item := s[item].(photos := s[item].photos + [photo])]
  }

  /** Adding a photo adds exactly one occurrence of it, even if it is already there. */
  lemma AddPhotoAddsOneOccurrence(s: Items, item: CheckName, photo: Photo)
    requires item in s
    ensures multiset(AddPhoto(s, item, photo)[item].photos) == multiset(s[item].photos) + multiset{photo}
  {
  }

  /** A photo with a file name new to its check keeps file names unique. */
  lemma AddPhotoFreshKeepsUnique(s: Items, item: CheckName, photo: Photo)
    requires item in s
    requires PhotoNamesUnique(s)
    requires !HasFileName(s[item].photos, photo.fileName)
    ensures PhotoNamesUnique(AddPhoto(s, item, photo))
  {
  }

  /** Nothing stops a second photo with an existing file name: uniqueness then fails. */
  lemma AddPhotoDuplicateBreaksUnique(s: Items, item: CheckName, photo: Photo)
    requires item in s
    requires HasFileName(s[item].photos, photo.fileName)
    ensures !UniqueFileNames(AddPhoto(s, item, photo)[item].photos)
  {
  }

  /** `photos.filter(p => p.fileName !== fileName)`. */
  function WithoutFileName(photos: seq<Photo>, fileName: string): (r: seq<Photo>)
    ensures |r| <= |photos|
    ensures forall p :: multiset(r)[p] == if p.fileName == fileName then 0 else multiset(photos)[p]
  {
    if photos == [] then []
    else
      assert photos == [photos[0]] + photos[1..];
      (if photos[0].fileName == fileName then [] else [photos[0]])
      + WithoutFileName(photos[1..], fileName)
  }

  /** `xs` occurs in `ys` in the same order, possibly with gaps. */
  predicate IsSubsequence(xs: seq<Photo>, ys: seq<Photo>)
    decreases |ys|
  {
    if xs == [] then true
    else if ys == [] then false
    else if xs[0] == ys[0] then IsSubsequence(xs[1..], ys[1..])
    else IsSubsequence(xs, ys[1..])
  }

  /** Filtering keeps the surviving photos in their original order. */
  lemma {:induction false} WithoutFileNameKeepsOrder(photos: seq<Photo>, fileName: string)
    ensures IsSubsequence(WithoutFileName(photos, fileName), photos)
  {
    if photos != [] {
      WithoutFileNameKeepsOrder(photos[1..], fileName);
      var tail := WithoutFileName(photos[1..], fileName);
      if photos[0].fileName == fileName {
        assert WithoutFileName(photos, fileName) == tail;
        SubsequenceOfTail(tail, photos);
      } else {
        var r := WithoutFileName(photos, fileName);
        assert r == [photos[0]] + tail;
        assert r[1..] == tail;
      }
    }
  }

  /** A subsequence of the tail is a subsequence of the whole. */
  lemma {:induction false} SubsequenceOfTail(xs: seq<Photo>, ys: seq<Photo>)
    requires ys != []
    requires IsSubsequence(xs, ys[1..])
    ensures IsSubsequence(xs, ys)
    decreases |ys|, 0
  {
    if xs != [] && xs[0] == ys[0] {
      SubsequenceDropHead(xs, ys[1..]);
    }
  }

  /** Dropping the first element of a subsequence leaves a subsequence. */
  lemma {:induction false} SubsequenceDropHead(xs: seq<Photo>, ys: seq<Photo>)
    requires xs != []
    requires IsSubsequence(xs, ys)
    ensures IsSubsequence(xs[1..], ys)
    decreases |ys|, 1
  {
    if xs[0] == ys[0] {
      SubsequenceOfTail(xs[1..], ys);
    } else {
      SubsequenceDropHead(xs, ys[1..]);
      SubsequenceOfTail(xs[1..], ys);
    }
  }

  /** Filtering by a name no photo has changes nothing. */
  lemma {:induction false} WithoutAbsentFileName(photos: seq<Photo>, fileName: string)
    requires !HasFileName(photos, fileName)
    ensures WithoutFileName(photos, fileName) == photos
  {
    if photos != [] {
      assert photos[0].fileName != fileName;
      assert !HasFileName(photos[1..], fileName) by {
        forall i | 0 <= i < |photos[1..]| ensures photos[1..][i].fileName != fileName {
          assert photos[1..][i] == photos[i + 1];
        }
      }
      WithoutAbsentFileName(photos[1..], fileName);
      assert [photos[0]] + photos[1..] == photos;
    }
  }

  /**
   * With unique file names, filtering by the name of the photo at index `i`
   * removes exactly that photo and keeps the others in order.
   */
  lemma {:induction false} WithoutUniqueFileName(photos: seq<Photo>, i: nat)
    requires i < |photos|
    requires UniqueFileNames(photos)
    ensures WithoutFileName(photos, photos[i].fileName) == photos[..i] + photos[i + 1..]
  {
    var name := photos[i].fileName;
    var tail := photos[1..];
    WithoutFileNameStep(photos, name);
    if i == 0 {
      HeadNameNotInTail(photos);
      WithoutAbsentFileName(tail, name);
    } else {
      UniqueTail(photos);
      WithoutUniqueFileName(tail, i - 1);
      SkipInTail(photos, i);
    }
  }

  /** Skipping index `i > 0` is keeping the head and skipping index `i - 1` of the tail. */
  lemma SkipInTail(photos: seq<Photo>, i: nat)
    requires 0 < i < |photos|
    ensures photos[..i] + photos[i + 1..] == [photos[0]] + (photos[1..][..i - 1] + photos[1..][i..])
  {
    assert photos[..i] == [photos[0]] + photos[1..][..i - 1];
  }

  /** One step of the filter: the first photo is kept unless its name matches. */
  lemma WithoutFileNameStep(photos: seq<Photo>, fileName: string)
    requires photos != []
    ensures WithoutFileName(photos, fileName) ==
      (if photos[0].fileName == fileName then [] else [photos[0]]) + WithoutFileName(photos[1..], fileName)
  {
  }

  /** In a list with unique file names, the first photo's name does not recur. */
  lemma HeadNameNotInTail(photos: seq<Photo>)
    requires photos != [] && UniqueFileNames(photos)
    ensures !HasFileName(photos[1..], photos[0].fileName)
  {
  }

  /** Filtering twice by the same name is the same as filtering once. */
  lemma WithoutFileNameIdempotent(photos: seq<Photo>, fileName: string)
    ensures WithoutFileName(WithoutFileName(photos, fileName), fileName) == WithoutFileName(photos, fileName)
  {
    var r := WithoutFileName(photos, fileName);
    assert !HasFileName(r, fileName) by {
      forall k | 0 <= k < |r| ensures r[k].fileName != fileName {
        assert r[k] in r;
      }
    }
    WithoutAbsentFileName(r, fileName);
  }

  /** The tail of a list with unique file names has unique file names. */
  lemma UniqueTail(photos: seq<Photo>)
    requires photos != [] && UniqueFileNames(photos)
    ensures UniqueFileNames(photos[1..])
  {
  }

  /** Prepending a photo whose name no listed photo has keeps file names unique. */
  lemma UniqueCons(p: Photo, photos: seq<Photo>)
    requires UniqueFileNames(photos)
    requires forall q :: q in photos ==> q.fileName != p.fileName
    ensures UniqueFileNames([p] + photos)
  {
  }

  /** Filtering keeps file names unique. */
  lemma {:induction false} WithoutFileNameKeepsUnique(photos: seq<Photo>, fileName: string)
    requires UniqueFileNames(photos)
    ensures UniqueFileNames(WithoutFileName(photos, fileName))
  {
    if photos != [] {
      var tail := photos[1..];
      UniqueTail(photos);
      WithoutFileNameKeepsUnique(tail, fileName);
      var rt := WithoutFileName(tail, fileName);
      if photos[0].fileName != fileName {
        forall q | q in rt ensures q.fileName != photos[0].fileName {
          var k :| 0 <= k < |tail| && tail[k] == q;
          assert tail[k] == photos[k + 1];
        }
        UniqueCons(photos[0], rt);
      }
    }
  }

  /** `handlePhotoRemove` after a successful remote delete: drop every photo with that name. */
  function RemovePhoto(s: Items, item: CheckName, fileName: string): (r: Items)
    requires item in s
    ensures r.Keys == s.Keys
    ensures r[item].status == s[item].status
    ensures forall p :: p in r[item].photos <==> p in s[item].photos && p.fileName != fileName
    ensures forall p ::
      multiset(r[item].photos)[p] == (if p.fileName == fileName then 0 else multiset(s[item].photos)[p])
    ensures forall c :: c in s && c != item ==> r[c] == s[c]
  {
    s[item := s[item].(photos := WithoutFileName(s[item].photos, fileName))]
  }

  /** Removing photos keeps file names unique. */
  lemma RemovePhotoKeepsUnique(s: Items, item: CheckName, fileName: string)
    requires item in s
    requires PhotoNamesUnique(s)
    ensures PhotoNamesUnique(RemovePhoto(s, item, fileName))
  {
    WithoutFileNameKeepsUnique(s[item].photos, fileName);
  }

  /** Removing a name that is not in the list leaves the state unchanged. */
  lemma RemoveAbsentPhotoIsNoOp(s: Items, item: CheckName, fileName: string)
    requires item in s
    requires !HasFileName(s[item].photos, fileName)
    ensures RemovePhoto(s, item, fileName) == s
  {
    WithoutAbsentFileName(s[item].photos, fileName);
  }

  /** Removing a present photo from a unique list removes exactly that one, in order. */
  lemma RemovePresentPhotoRemovesOne(s: Items, item: CheckName, i: nat)
    requires item in s
    requires i < |s[item].photos|
    requires UniqueFileNames(s[item].photos)
    ensures var ps := s[item].photos;
      RemovePhoto(s, item, ps[i].fileName)[item].photos == ps[..i] + ps[i + 1..]
  {
    WithoutUniqueFileName(s[item].photos, i);
  }
}
