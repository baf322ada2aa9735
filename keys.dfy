/**
 * How the gateway encodes a stored object's key and reads it back:
 * `<id>-<originalname>` on upload (index.js:83), `succeeded_files/<key>` on a
 * move (index.js:35), the display name and status derived by the listing
 * (index.js:117, 122) and the identifier prefix taken from a notification
 * (index.js:199).
 */
module Keys {
  import opened Wrappers
  import opened Text

  const SUCCEEDED_PREFIX := "succeeded_files/"

  datatype Status = Processed | Pending

  /** index.js:83: the storage key of an uploaded file. */
  function BlobKey(id: string, originalname: string): (k: string)
  {
    id + "-" + originalname
  }

  /** index.js:35: the destination key of a move. */
  function SucceededKey(key: string): (k: string)
  {
    SUCCEEDED_PREFIX + key
  }

  /**
   * index.js:117: `name.split('-').slice(1).join('-')`, which is everything
   * after the first `-`, or "" when the key has none.
   */
  function DisplayName(key: string): (r: string)
    ensures r == match IndexOf(key, '-') case None => "" case Some(i) => key[i + 1..]
  {
    AfterFirstSeparator(key, '-');
    Join(Split(key, '-')[1..], '-')
  }

  /** index.js:122: the status is read off the key's prefix. */
  function StatusOf(key: string): Status
  {
    if StartsWith(key, SUCCEEDED_PREFIX) then Processed else Pending
  }

  /**
   * index.js:199: `file_name.split('-')[0]`, which is everything before the
   * first `-`, or the whole name.
   */
  function NotificationPrefix(fileName: string): (r: string)
    ensures r == match IndexOf(fileName, '-') case None => fileName case Some(i) => fileName[..i]
    ensures StartsWith(fileName, r) && '-' !in r
  {
    SplitHead(fileName, '-');
    Split(fileName, '-')[0]
  }

  predicate IsHexDigit(c: char)
  {
    '0' <= c <= '9' || 'a' <= c <= 'f'
  }

  /** The textual form of a UUID as `uuidv4()` returns it: 8-4-4-4-12 lower-case hex digits. */
  predicate IsUuid(s: string)
  {
    |s| == 36 &&
    forall k :: 0 <= k < 36 ==> if k == 8 || k == 13 || k == 18 || k == 23 then s[k] == '-' else IsHexDigit(s[k])
  }

  /** For an id without `-`, the listing shows exactly the uploaded file's name. */
  lemma DisplayNameRoundTrip(id: string, originalname: string)
    requires '-' !in id
    ensures DisplayName(BlobKey(id, originalname)) == originalname
  {
    var key := BlobKey(id, originalname);
    assert forall j :: 0 <= j < |id| ==> key[j] == id[j];
    assert key[|id|] == '-';
    assert IndexOf(key, '-') == Some(|id|);
    assert key[|id| + 1..] == originalname;
  }

  /**
   * For a real UUID the listing keeps the last four groups of the UUID: only
   * the first group is stripped, so the display name is not the uploaded name.
   */
  lemma UuidDisplayName(id: string, originalname: string)
    requires IsUuid(id)
    ensures DisplayName(BlobKey(id, originalname)) == id[9..] + "-" + originalname
    ensures DisplayName(BlobKey(id, originalname)) != originalname
  {
    var key := BlobKey(id, originalname);
    assert forall j :: 0 <= j < 8 ==> key[j] == id[j] && id[j] != '-';
    assert key[8] == '-';
    assert IndexOf(key, '-') == Some(8);
    assert key[9..] == id[9..] + "-" + originalname;
  }

  /** For a real UUID the notification prefix is its first group of eight hex digits. */
  lemma UuidNotificationPrefix(id: string, rest: string)
    requires IsUuid(id)
    ensures NotificationPrefix(id + "-" + rest) == id[..8]
  {
    var f := id + "-" + rest;
    assert forall j :: 0 <= j < 8 ==> f[j] == id[j] && id[j] != '-';
    assert f[8] == '-';
    assert IndexOf(f, '-') == Some(8);
  }

  /**
   * A notification naming an uploaded key (any text after the id) yields a
   * prefix that the key starts with, whatever the id looks like.
   */
  lemma NotificationMatchesKey(id: string, originalname: string, rest: string)
    ensures StartsWith(BlobKey(id, originalname), NotificationPrefix(id + "-" + rest))
  {
    var f := id + "-" + rest;
    var key := BlobKey(id, originalname);
    var p := NotificationPrefix(f);
    assert |p| <= |id| by {
      assert f[|id|] == '-';
    }
    assert p == id[..|p|] == key[..|p|];
  }

  /** Status is Processed exactly for keys that a move produced. */
  lemma StatusOfSucceeded(key: string)
    ensures StatusOf(SucceededKey(key)) == Processed
    ensures StatusOf(key) == Processed <==> exists k :: key == SucceededKey(k)
  {
    assert SucceededKey(key)[..|SUCCEEDED_PREFIX|] == SUCCEEDED_PREFIX;
    if StatusOf(key) == Processed {
      assert key == SucceededKey(key[|SUCCEEDED_PREFIX|..]);
    }
  }

  /** A freshly uploaded file is listed as Pending: a UUID never starts with `s`. */
  lemma UploadedIsPending(id: string, originalname: string)
    requires IsUuid(id)
    ensures StatusOf(BlobKey(id, originalname)) == Pending
  {
    assert BlobKey(id, originalname)[0] == id[0];
    assert IsHexDigit(id[0]);
  }
}
