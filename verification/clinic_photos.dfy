/** `ClinicPhotoService`: photo creation and the ownership check, over an
    in-memory photo store keyed by photo id. */
module ClinicPhotos {
  import opened Wrappers

  /** The clinic a photo points to; its id may be null. */
  datatype ClinicRef = ClinicRef(id: Option<int>)

  /** The fields of a photo the service reads or writes; the rest are
      carried along untouched as `rest`. */
  datatype ClinicPhoto = ClinicPhoto(
    id: Option<int>,
    clinic: Option<ClinicRef>,
    createdAt: Option<Instant>,
    rest: string)

  type PhotoStore = map<int, ClinicPhoto>

  /** The stored photo's id is the key it is stored under. */
  predicate WellKeyed(store: PhotoStore) {
    forall k :: k in store ==> store[k].id == Some(k)
  }

  /** `getClinic().getId().equals(clinicId)` dereferences two possibly null
      values. */
  datatype OwnershipError = NullPointer

  /** `validatePhotoOwnership(photoId, clinicId)`. */
  function ValidatePhotoOwnership(store: PhotoStore, photoId: Option<int>, clinicId: Option<int>)
    : (r: Result<bool, OwnershipError>)
    // a null argument or an unknown photo is not owned
    ensures photoId.None? || clinicId.None? ==> r == Ok(false)
    ensures photoId.Some? && photoId.value !in store ==> r == Ok(false)
    // a photo without a clinic, or whose clinic has no id, throws
    ensures r.Err? <==>
      && photoId.Some? && clinicId.Some? && photoId.value in store
      && (store[photoId.value].clinic.None? || store[photoId.value].clinic.value.id.None?)
    // otherwise: owned iff the photo's clinic id is the one asked about
    ensures r == Ok(true) <==>
      && photoId.Some? && clinicId.Some? && photoId.value in store
      && store[photoId.value].clinic == Some(ClinicRef(clinicId))
  {
    if photoId.None? || clinicId.None? then Ok(false)
    else if photoId.value !in store then Ok(false)
    else
      var photo := store[photoId.value];
      if photo.clinic.None? || photo.clinic.value.id.None? then Err(NullPointer)
      else Ok(photo.clinic.value.id.value == clinicId.value)
  }

  /** `createPhoto(photo)`: stamps `createdAt` with `now`, then the
      repository inserts the photo under the fresh id `newId` it generates.
      The inserted photo is returned. */
  function CreatePhoto(store: PhotoStore, photo: ClinicPhoto, now: Instant, newId: int)
    : (r: (PhotoStore, ClinicPhoto))
    requires newId !in store
    ensures r.1.createdAt == Some(now) && r.1.id == Some(newId)
    ensures r.1.clinic == photo.clinic && r.1.rest == photo.rest
    ensures r.0 == store[newId := r.1]
  {
    var stamped := photo.(createdAt := Some(now)).(id := Some(newId));
    (store[newId := stamped], stamped)
  }

  /** Creating a photo keeps the store well keyed and leaves every other
      photo as it was. */
  lemma CreateKeepsStore(store: PhotoStore, photo: ClinicPhoto, now: Instant, newId: int)
    requires WellKeyed(store) && newId !in store
    ensures var (s, _) := CreatePhoto(store, photo, now, newId);
      && WellKeyed(s)
      && s.Keys == store.Keys + {newId}
      && forall k :: k in store ==> s[k] == store[k]
  {
  }

  /** A photo created for a clinic is owned by that clinic and by no other,
      whatever the store held before. */
  lemma CreatedPhotoIsOwned(store: PhotoStore, photo: ClinicPhoto, now: Instant, newId: int,
                            clinicId: int, other: int)
    requires newId !in store
    requires photo.clinic == Some(ClinicRef(Some(clinicId)))
    requires other != clinicId
    ensures var (s, p) := CreatePhoto(store, photo, now, newId);
      && ValidatePhotoOwnership(s, p.id, Some(clinicId)) == Ok(true)
      && ValidatePhotoOwnership(s, p.id, Some(other)) == Ok(false)
  {
  }

  /** Creating one photo changes no other photo's ownership answer. */
  lemma CreateKeepsOwnership(store: PhotoStore, photo: ClinicPhoto, now: Instant, newId: int,
                             photoId: int, clinicId: Option<int>)
    requires newId !in store && photoId != newId
    ensures var (s, _) := CreatePhoto(store, photo, now, newId);
      ValidatePhotoOwnership(s, Some(photoId), clinicId)
        == ValidatePhotoOwnership(store, Some(photoId), clinicId)
  {
  }
}
