/**
 * The `App` component's single state cell and the handlers that overwrite
 * it. Every remote call (storage upload and remove, table insert), the UUID
 * generator, the public-URL lookup and the clock are inputs: each handler
 * receives the outcome the remote call reported and runs as one atomic step.
 */
module App {
  import opened Wrappers
  import opened FormState
  import opened ObjectNaming

  /** What a storage or table call reported: no error, or an error. */
  datatype RemoteResult = Ok | Err(reason: string)

  /** The file the user picked; only its name matters to the form. */
  datatype File = File(name: string)

  /** The row inserted into the `verifications` table. */
  datatype SavedRecord = SavedRecord(verificationData: Items, createdAt: string)

  const UploadFailedAlert: string := "Failed to upload photo"
  const RemoveFailedAlert: string := "Failed to remove photo"
  const SaveSucceededAlert: string := "Verification results saved successfully!"
  const SaveFailedAlert: string := "Failed to save verification results"

  /**
   * The photo `handleFileChange` hands to the form: none when no file was
   * chosen or the upload reported an error, otherwise the uploaded object's
   * name and its public URL.
   */
  function UploadedPhoto(file: Option<File>, uuid: string, upload: RemoteResult,
                         publicUrl: string -> string): (photo: Option<Photo>)
    ensures photo.Some? <==> file.Some? && upload.Ok?
    ensures photo.Some? ==>
      && photo.value.fileName == ObjectName(uuid, file.value.name)
      && photo.value.url == publicUrl(photo.value.fileName)
  {
    match file
    case None => None
    case Some(f) =>
      var objectName := ObjectName(uuid, f.name);
      if upload.Err? then None else Some(Photo(publicUrl(objectName), objectName))
  }

  /** An uploaded photo is stored under the chosen file's extension. */
  lemma UploadedPhotoKeepsExtension(file: Option<File>, uuid: string, upload: RemoteResult,
                                    publicUrl: string -> string)
    requires UploadedPhoto(file, uuid, upload, publicUrl).Some?
    ensures Extension(UploadedPhoto(file, uuid, upload, publicUrl).value.fileName)
         == Extension(file.value.name)
  {
    ObjectNameKeepsExtension(uuid, file.value.name);
  }

  /** The form: the mutable state cell and its handlers. */
  class VerificationForm {
    var items: Items

    /** Every check always has a record. */
    predicate Valid()
      reads this
    {
      Complete(items)
    }

    /** The state the form is created with. */
    constructor ()
      ensures Valid()
      ensures items == Initial()
    {
      items := Initial();
    }

    /** A Pass or Fail button was pressed for `item`. */
    method HandleStatusChange(item: CheckName, status: string)
      requires Valid()
      modifies this
      ensures Valid()
      ensures items == SetStatus(old(items), item, status)
    {
      items := SetStatus(items, item, status);
    }

    /** A photo for `item` finished uploading. */
    method HandlePhotoAdd(item: CheckName, photo: Photo)
      requires Valid()
      modifies this
      ensures Valid()
      ensures items == AddPhoto(old(items), item, photo)
    {
      items := AddPhoto(items, item, photo);
    }

    /**
     * A file was picked for `item`. Returns the object name sent to storage
     * (none when no file was chosen) and the alert shown, if any.
     */
    method HandleFileChange(item: CheckName, file: Option<File>, uuid: string,
                            upload: RemoteResult, publicUrl: string -> string)
      returns (requested: Option<string>, alert: Option<string>)
      requires Valid()
      modifies this
      ensures Valid()
      ensures file.None? ==> requested.None? && alert.None? && items == old(items)
      ensures file.Some? ==> requested == Some(ObjectName(uuid, file.value.name))
      ensures file.Some? ==> alert == (if upload.Err? then Some(UploadFailedAlert) else None)
      ensures items == match UploadedPhoto(file, uuid, upload, publicUrl)
                       case None => old(items)
                       case Some(photo) => AddPhoto(old(items), item, photo)
    {
      if file.None? {
        return None, None;
      }
      var objectName := ObjectName(uuid, file.value.name);
      requested := Some(objectName);
      if upload.Err? {
        alert := Some(UploadFailedAlert);
        return;
      }
      alert := None;
      HandlePhotoAdd(item, Photo(publicUrl(objectName), objectName));
    }

    /**
     * The remove button of `photoToRemove` under `item` was pressed. Returns
     * the object name sent to storage and the alert shown, if any.
     */
    method HandlePhotoRemove(item: CheckName, photoToRemove: Photo, removal: RemoteResult)
      returns (requested: string, alert: Option<string>)
      requires Valid()
      modifies this
      ensures Valid()
      ensures requested == photoToRemove.fileName
      ensures removal.Err? ==> alert == Some(RemoveFailedAlert) && items == old(items)
      ensures removal.Ok? ==> alert.None? && items == RemovePhoto(old(items), item, requested)
    {
      requested := photoToRemove.fileName;
      if removal.Err? {
        alert := Some(RemoveFailedAlert);
        return;
      }
      alert := None;
      items := RemovePhoto(items, item, requested);
    }

    /**
     * Save was pressed at time `createdAt`: the record sent to the table and
     * the alert shown. The state is only read.
     */
    method HandleSave(createdAt: string, insert: RemoteResult)
      returns (record: SavedRecord, alert: string)
      ensures record.verificationData == items && record.createdAt == createdAt
      ensures insert.Ok? ==> alert == SaveSucceededAlert
      ensures insert.Err? ==> alert == SaveFailedAlert
    {
      record := SavedRecord(items, createdAt);
      alert := if insert.Ok? then SaveSucceededAlert else SaveFailedAlert;
    }
  }

  /** A client session: set a status, upload a photo, remove it, save. */
  method SessionWalkthrough(uuid: string, publicUrl: string -> string)
  {
    var form := new VerificationForm();
    form.HandleStatusChange(Airflow, "pass");
    assert form.items[Airflow].status == "pass";
    assert form.items[Refrigerant] == CheckRecord("", []);

    var requested, alert := form.HandleFileChange(Airflow, Some(File("duct.jpg")), uuid, Ok, publicUrl);
    var name := requested.value;
    assert form.items[Airflow].photos == [Photo(publicUrl(name), name)];
    assert form.items[Airflow].status == "pass";

    var failedAlert;
    requested, failedAlert := form.HandleFileChange(Airflow, Some(File("coil.png")), uuid, Err("quota"), publicUrl);
    assert failedAlert == Some(UploadFailedAlert);
    assert |form.items[Airflow].photos| == 1;

    var removed, removeAlert := form.HandlePhotoRemove(Airflow, Photo(publicUrl(name), name), Err("offline"));
    assert |form.items[Airflow].photos| == 1;
    removed, removeAlert := form.HandlePhotoRemove(Airflow, Photo(publicUrl(name), name), Ok);
    assert form.items[Airflow].photos == [];

    var before := form.items;
    var record, saveAlert := form.HandleSave("2024-01-01T00:00:00.000Z", Ok);
    assert form.items == before && record.verificationData == before;
  }
}
