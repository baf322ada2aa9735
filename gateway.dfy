/**
 * The gateway's request handlers (index.js:32-226) over the abstract store.
 * The container's blobs and the module-level `latestNotification` slot are the
 * two fields of a Gateway; each handler is a method that returns the HTTP
 * status it sends. Fresh UUIDs, storage failures and the copy's terminal
 * status are parameters.
 */
module Gateway {
  import opened Wrappers
  import opened Text
  import opened Mime
  import opened Keys
  import opened Tags
  import opened Store

  /** A file of the multipart upload. */
  datatype UploadedFile = UploadedFile(originalname: string, buffer: seq<byte>)

  /** One element of the array `GET /files` returns (the blob URL is not modelled). */
  datatype FileInfo = FileInfo(name: string, blobName: string, contentType: string, tags: seq<string>, status: Status)

  /** The body `GET /files/:name/details` returns. */
  datatype Details = Details(name: string, contentType: string, tags: seq<string>)

  /** The body of `POST /notify`, as kept in the slot. */
  datatype Notification = Notification(message: string, fileName: string)

  const SUCCESS_PHRASE := "processed successfully"
  const COPY_SUCCESS := "success"

  /** index.js:81-96: the blob an upload writes for one file. */
  function FileBlob(f: UploadedFile, id: string, meta: Option<string>): Blob
  {
    Blob(BlobKey(id, f.originalname), f.buffer, GetMimeType(f.originalname), meta)
  }

  /**
   * The upload loop stops at file i: `tags[i]` throws (which happens exactly
   * when `tags` is null, see TagMeta) or storing file i fails.
   */
  predicate Fails(tags: TagsField, failAt: Option<nat>, i: nat)
  {
    tags.JsonNull? || (failAt.Some? && failAt.value == i)
  }

  /** The index of the file at which an upload of n files stops, or n when every file is stored. */
  function UploadStop(tags: TagsField, failAt: Option<nat>, n: nat): (r: nat)
    ensures r <= n
    ensures forall j :: 0 <= j < r ==> !Fails(tags, failAt, j)
    ensures r < n ==> Fails(tags, failAt, r)
  {
    if n > 0 && tags.JsonNull? then 0
    else if failAt.Some? && failAt.value < n then failAt.value
    else n
  }

  /** index.js:80-97: the blobs the first n iterations of the upload loop write, in order. */
  function UploadBlobs(files: seq<UploadedFile>, tags: TagsField, ids: seq<string>, n: nat): (r: seq<Blob>)
    requires n <= |files| == |ids|
    requires n == 0 || !tags.JsonNull?
    ensures |r| == n
  {
    seq(n, j requires 0 <= j < n => FileBlob(files[j], ids[j], TagMeta(tags, j).meta))
  }

  /** The blobs an upload writes are keyed by the file's id and name. */
  lemma UploadBlobsKeys(files: seq<UploadedFile>, tags: TagsField, ids: seq<string>, n: nat)
    requires n <= |files| == |ids| && (n == 0 || !tags.JsonNull?)
    ensures forall k :: 0 <= k < n ==> UploadBlobs(files, tags, ids, n)[k].name == BlobKey(ids[k], files[k].originalname)
  {
  }

  /** One more iteration of the upload loop writes file n's blob over the store so far. */
  lemma UploadStep(bs: seq<Blob>, files: seq<UploadedFile>, tags: TagsField, ids: seq<string>, n: nat, meta: Option<string>)
    requires n < |files| == |ids| && !tags.JsonNull?
    requires meta == TagMeta(tags, n).meta
    ensures PutAll(bs, UploadBlobs(files, tags, ids, n + 1)) ==
      Put(PutAll(bs, UploadBlobs(files, tags, ids, n)), FileBlob(files[n], ids[n], meta))
  {
    var xs := UploadBlobs(files, tags, ids, n + 1);
    assert xs[..n] == UploadBlobs(files, tags, ids, n);
  }

  /** index.js:116-123: the listing entry for a blob. */
  function Describe(b: Blob): FileInfo
  {
    FileInfo(DisplayName(b.name), b.name, b.contentType, TagList(b.tags), StatusOf(b.name))
  }

  /** index.js:32-67: the store after moving `key` with a copy that ends in `copyStatus`. */
  function Moved(bs: seq<Blob>, key: string, copyStatus: string): seq<Blob>
  {
    match Get(bs, key)
    case None => bs
    case Some(src) =>
      var copied := Put(bs, src.(name := SucceededKey(key)));
      if copyStatus == COPY_SUCCESS then Remove(copied, key) else copied
  }

  /** index.js:193: the message asks for a move. */
  predicate IsSuccessMessage(message: string)
  {
    Contains(LowerStr(message), SUCCESS_PHRASE)
  }

  /** index.js:193-217: the store after a notification. */
  function NotifyEffect(bs: seq<Blob>, message: string, fileName: string, copyStatus: string): seq<Blob>
  {
    if !IsSuccessMessage(message) then bs
    else match FirstMatch(bs, Prefix(NotificationPrefix(fileName)))
      case None => bs
      case Some(i) => Moved(bs, bs[i].name, copyStatus)
  }

  /**
   * After an upload that stored n files, file j's key holds file j's blob,
   * unless a later file of the same request was stored under the same key.
   */
  lemma UploadStoresFile(bs: seq<Blob>, files: seq<UploadedFile>, tags: TagsField, ids: seq<string>, n: nat, j: nat)
    requires n <= |files| == |ids| && (n == 0 || !tags.JsonNull?)
    requires j < n
    requires forall k :: j < k < n ==> BlobKey(ids[k], files[k].originalname) != BlobKey(ids[j], files[j].originalname)
    ensures Get(PutAll(bs, UploadBlobs(files, tags, ids, n)), BlobKey(ids[j], files[j].originalname))
      == Some(FileBlob(files[j], ids[j], TagMeta(tags, j).meta))
  {
    var xs := UploadBlobs(files, tags, ids, n);
    var key := BlobKey(ids[j], files[j].originalname);
    UploadBlobsKeys(files, tags, ids, n);
    LastWithNameIs(xs, key, j);
    GetPutAll(bs, xs, key);
    assert xs[j] == FileBlob(files[j], ids[j], TagMeta(tags, j).meta);
  }

  /** An upload leaves every key that none of the stored files was written under as it was. */
  lemma UploadKeepsOtherKeys(bs: seq<Blob>, files: seq<UploadedFile>, tags: TagsField, ids: seq<string>, n: nat, key: string)
    requires n <= |files| == |ids| && (n == 0 || !tags.JsonNull?)
    requires forall k :: 0 <= k < n ==> BlobKey(ids[k], files[k].originalname) != key
    ensures Get(PutAll(bs, UploadBlobs(files, tags, ids, n)), key) == Get(bs, key)
  {
    var xs := UploadBlobs(files, tags, ids, n);
    UploadBlobsKeys(files, tags, ids, n);
    GetPutAll(bs, xs, key);
  }

  /**
   * index.js:83-96 then 116-123: a file uploaded under a UUID is listed with
   * the UUID's last four groups before its name, the type its name maps to,
   * the tags it was given, and status Pending.
   */
  lemma ListUploadedFile(f: UploadedFile, id: string, meta: Option<string>)
    requires IsUuid(id)
    ensures Describe(FileBlob(f, id, meta)) ==
      FileInfo(id[9..] + "-" + f.originalname, BlobKey(id, f.originalname), GetMimeType(f.originalname), TagList(meta), Pending)
  {
    UuidDisplayName(id, f.originalname);
    UploadedIsPending(id, f.originalname);
  }

  /**
   * index.js:32-67: a move of a missing key changes nothing; otherwise the
   * destination holds the source's data and tags, the source is gone exactly
   * when the copy succeeded, and every other key is untouched.
   */
  lemma MovedGet(bs: seq<Blob>, key: string, copyStatus: string, other: string)
    ensures Get(Moved(bs, key, copyStatus), other) == match Get(bs, key)
      case None => Get(bs, other)
      case Some(src) =>
        if other == SucceededKey(key) then Some(src.(name := SucceededKey(key)))
        else if other == key && copyStatus == COPY_SUCCESS then None
        else Get(bs, other)
  {
    match Get(bs, key)
    case None =>
    case Some(src) =>
      var dst := src.(name := SucceededKey(key));
      assert key != SucceededKey(key) by { assert |SucceededKey(key)| > |key|; }
      GetPut(bs, dst, other);
      if copyStatus == COPY_SUCCESS {
        GetRemove(Put(bs, dst), key, other);
      }
  }

  /** index.js:193: the phrase is matched after lower-casing, so the message's case does not matter. */
  lemma SuccessMessageIgnoresCase(message: string)
    ensures IsSuccessMessage(message) <==> IsSuccessMessage(LowerStr(message))
    ensures IsSuccessMessage(message) <==> exists k :: OccursAt(LowerStr(message), SUCCESS_PHRASE, k)
  {
    LowerStrIdempotent(message);
    ContainsAt(LowerStr(message), SUCCESS_PHRASE);
  }

  /**
   * index.js:186-217 end to end: a success notification whose file name starts
   * with a stored key's UUID, followed by `-`, moves that blob to
   * `succeeded_files/` and, when the copy succeeds, removes the original,
   * provided no blob listed before it starts with the UUID's first group.
   */
  lemma NotifyMovesUploadedFile(bs: seq<Blob>, i: nat, id: string, originalname: string, rest: string, message: string)
    requires Sorted(bs) && i < |bs|
    requires IsUuid(id) && bs[i].name == BlobKey(id, originalname)
    requires IsSuccessMessage(message)
    requires forall j :: 0 <= j < i ==> !StartsWith(bs[j].name, id[..8])
    ensures var after := NotifyEffect(bs, message, id + "-" + rest, COPY_SUCCESS);
      && Get(after, SucceededKey(bs[i].name)) == Some(bs[i].(name := SucceededKey(bs[i].name)))
      && Get(after, bs[i].name) == None
  {
    var fileName := id + "-" + rest;
    UuidNotificationPrefix(id, rest);
    NotificationMatchesKey(id, originalname, rest);
    var m := FirstMatch(bs, Prefix(NotificationPrefix(fileName)));
    assert m == Some(i) by {
      assert Matches(Prefix(id[..8]), bs[i].name);
    }
    GetAt(bs, i);
    MovedGet(bs, bs[i].name, COPY_SUCCESS, SucceededKey(bs[i].name));
    MovedGet(bs, bs[i].name, COPY_SUCCESS, bs[i].name);
  }

  class Gateway {
    /** The container's blobs in listing order. */
    var blobs: seq<Blob>
    /** index.js:184: the single notification slot; None is `null`. */
    var latestNotification: Option<Notification>

    predicate Valid()
      reads this
    {
      Sorted(blobs)
    }

    constructor (initial: seq<Blob>)
      requires Sorted(initial)
      ensures Valid() && blobs == initial && latestNotification == None
    {
      blobs := initial;
      latestNotification := None;
    }

    /** index.js:32-67 */
    method MoveBlobToSucceededFolder(blobName: string, copyStatus: string)
      requires Valid()
      modifies this
      ensures Valid()
      ensures blobs == Moved(old(blobs), blobName, copyStatus)
      ensures latestNotification == old(latestNotification)
    {
      var source := Get(blobs, blobName);
      if source.None? {
        return;
      }
      var destination := SucceededKey(blobName);
      PutSorted(blobs, source.value.(name := destination));
      blobs := Put(blobs, source.value.(name := destination));
      if copyStatus == COPY_SUCCESS {
        RemoveSorted(blobs, blobName);
        blobs := Remove(blobs, blobName);
      }
    }

    /**
     * index.js:69-104. File i is stored under `ids[i]-<name>`; the loop stops
     * with 500 at the first file whose tag lookup throws or whose upload fails
     * (`failAt`), keeping the files stored before it.
     */
    method Upload(files: seq<UploadedFile>, tags: TagsField, ids: seq<string>, failAt: Option<nat>) returns (status: int)
      requires Valid()
      requires |ids| == |files|
      modifies this
      ensures Valid()
      ensures var n := UploadStop(tags, failAt, |files|);
        && status == (if n == |files| then 200 else 500)
        && blobs == PutAll(old(blobs), UploadBlobs(files, tags, ids, n))
      ensures latestNotification == old(latestNotification)
    {
      var i := 0;
      while i < |files|
        invariant 0 <= i <= |files|
        invariant i == 0 || !tags.JsonNull?
        invariant failAt.None? || failAt.value >= i
        invariant blobs == PutAll(old(blobs), UploadBlobs(files, tags, ids, i))
        invariant latestNotification == old(latestNotification)
      {
        var meta := TagMeta(tags, i);
        if meta.Throws? {
          assert UploadStop(tags, failAt, |files|) == i;
          PutAllSorted(old(blobs), UploadBlobs(files, tags, ids, i));
          return 500;
        }
        if failAt.Some? && failAt.value == i {
          assert UploadStop(tags, failAt, |files|) == i;
          PutAllSorted(old(blobs), UploadBlobs(files, tags, ids, i));
          return 500;
        }
        var blob := FileBlob(files[i], ids[i], meta.meta);
        UploadStep(old(blobs), files, tags, ids, i, meta.meta);
        blobs := Put(blobs, blob);
        i := i + 1;
      }
      assert UploadStop(tags, failAt, |files|) == i;
      PutAllSorted(old(blobs), UploadBlobs(files, tags, ids, i));
      return 200;
    }

    /** index.js:106-132. A storage failure (`fault`) gives 500 and no entries. */
    method ListFiles(fault: bool) returns (status: int, files: seq<FileInfo>)
      ensures fault ==> status == 500 && files == []
      ensures !fault ==> status == 200 && |files| == |blobs|
      ensures !fault ==> forall i :: 0 <= i < |blobs| ==> files[i] == Describe(blobs[i])
    {
      if fault {
        return 500, [];
      }
      files := [];
      var i := 0;
      while i < |blobs|
        invariant 0 <= i <= |blobs|
        invariant |files| == i
        invariant forall j :: 0 <= j < i ==> files[j] == Describe(blobs[j])
      {
        files := files + [Describe(blobs[i])];
        i := i + 1;
      }
      status := 200;
    }

    /**
     * index.js:134-154. Deletes the first blob in listing order whose name ends
     * with `name`; 404 and no change when none does; 500 and no change on a
     * storage failure.
     */
    method DeleteFile(name: string, fault: bool) returns (status: int)
      requires Valid()
      modifies this
      ensures Valid()
      ensures fault ==> status == 500 && blobs == old(blobs)
      ensures !fault ==> match FirstMatch(old(blobs), Suffix(name))
        case Some(i) => status == 200 && blobs == old(blobs)[..i] + old(blobs)[i + 1..]
        case None => status == 404 && blobs == old(blobs)
      ensures latestNotification == old(latestNotification)
    {
      if fault {
        return 500;
      }
      var i := 0;
      while i < |blobs|
        invariant 0 <= i <= |blobs|
        invariant blobs == old(blobs)
        invariant forall j :: 0 <= j < i ==> !EndsWith(blobs[j].name, name)
      {
        if EndsWith(blobs[i].name, name) {
          RemoveAt(blobs, i);
          RemoveSorted(blobs, blobs[i].name);
          blobs := Remove(blobs, blobs[i].name);
          return 200;
        }
        i := i + 1;
      }
      return 404;
    }

    /**
     * index.js:156-182. Describes the first blob in listing order whose name
     * ends with `name`, reporting `name` itself; 404 when none does.
     */
    method FileDetails(name: string, fault: bool) returns (status: int, details: Option<Details>)
      ensures fault ==> status == 500 && details == None
      ensures !fault ==> match FirstMatch(blobs, Suffix(name))
        case Some(i) => status == 200 && details == Some(Details(name, blobs[i].contentType, TagList(blobs[i].tags)))
        case None => status == 404 && details == None
    {
      if fault {
        return 500, None;
      }
      var i := 0;
      while i < |blobs|
        invariant 0 <= i <= |blobs|
        invariant forall j :: 0 <= j < i ==> !EndsWith(blobs[j].name, name)
      {
        if EndsWith(blobs[i].name, name) {
          return 200, Some(Details(name, blobs[i].contentType, TagList(blobs[i].tags)));
        }
        i := i + 1;
      }
      return 404, None;
    }

    /**
     * index.js:186-221. Overwrites the slot, then, for a success message, moves
     * the first blob whose name starts with the part of `fileName` before its
     * first `-`. Always 200: a failed move is only logged.
     */
    method Notify(message: string, fileName: string, copyStatus: string) returns (status: int)
      requires Valid()
      modifies this
      ensures Valid()
      ensures status == 200
      ensures latestNotification == Some(Notification(message, fileName))
      ensures blobs == NotifyEffect(old(blobs), message, fileName, copyStatus)
    {
      latestNotification := Some(Notification(message, fileName));
      if Contains(LowerStr(message), SUCCESS_PHRASE) {
        var uuid := NotificationPrefix(fileName);
        var i := 0;
        while i < |blobs|
          invariant 0 <= i <= |blobs|
          invariant blobs == old(blobs)
          invariant latestNotification == Some(Notification(message, fileName))
          invariant forall j :: 0 <= j < i ==> !StartsWith(blobs[j].name, uuid)
        {
          if StartsWith(blobs[i].name, uuid) {
            MoveBlobToSucceededFolder(blobs[i].name, copyStatus);
            break;
          }
          i := i + 1;
        }
      }
      return 200;
    }

    /** index.js:223-226: returns the slot (None is `{}`) and clears it. */
    method LatestNotification() returns (r: Option<Notification>)
      requires Valid()
      modifies this
      ensures Valid()
      ensures r == old(latestNotification)
      ensures latestNotification == None
      ensures blobs == old(blobs)
    {
      r := latestNotification;
      latestNotification := None;
    }
  }

  /** A notification is delivered to the first poll only: the second poll sees `{}`. */
  method NotifyThenPollTwice(g: Gateway, message: string, fileName: string, copyStatus: string)
    returns (first: Option<Notification>, second: Option<Notification>)
    requires g.Valid()
    modifies g
    ensures first == Some(Notification(message, fileName))
    ensures second == None
  {
    var _ := g.Notify(message, fileName, copyStatus);
    first := g.LatestNotification();
    second := g.LatestNotification();
  }
}
