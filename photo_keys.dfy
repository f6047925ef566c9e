/**
 * Naming of stored photo files: the extension chosen from the MIME type, the public URL
 * under `/uploads/`, the storage keys `u/<user>/a_<stamp>.<ext>` and
 * `u/<user>/g<position>_<stamp>.<ext>`, and the thumbnail key derived from a main key by
 * replacing the trailing `.<word>` with `_thumb.<word>`.
 */
module PhotoKeys {
  import opened Base
  import opened Text

  const AllowedMime: set<string> := {"image/jpeg", "image/png", "image/webp"}

  /** Extension of the stored file; unknown types fall back to `jpg`. */
  function ExtFromMime(mime: string): (ext: string)
    ensures ext in {"jpg", "png", "webp"}
    ensures mime !in AllowedMime ==> ext == "jpg"
  {
    if mime == "image/jpeg" then "jpg"
    else if mime == "image/png" then "png"
    else if mime == "image/webp" then "webp"
    else "jpg"
  }

  /** Reference inverse of `ExtFromMime` on the accepted types. */
  function MimeOfExt(ext: string): Option<string> {
    if ext == "jpg" then Some("image/jpeg")
    else if ext == "png" then Some("image/png")
    else if ext == "webp" then Some("image/webp")
    else None
  }

  /** Every accepted type gets its own extension, and the extension gives the type back. */
  lemma ExtFromMimeInvertible(mime: string)
    ensures mime in AllowedMime ==> MimeOfExt(ExtFromMime(mime)) == Some(mime)
    ensures mime !in AllowedMime ==> MimeOfExt(ExtFromMime(mime)) == Some("image/jpeg")
  {
  }

  const UploadsPrefix := "/uploads/"

  function PublicUrl(storageKey: string): (url: string)
    ensures |url| == |UploadsPrefix| + |storageKey|
  {
    UploadsPrefix + storageKey
  }

  /** The storage key a public URL points at, if it is one. */
  function StorageKeyOf(url: string): Option<string> {
    if |url| >= |UploadsPrefix| && url[..|UploadsPrefix|] == UploadsPrefix
    then Some(url[|UploadsPrefix|..]) else None
  }

  lemma PublicUrlRoundTrip(storageKey: string)
    ensures StorageKeyOf(PublicUrl(storageKey)) == Some(storageKey)
  {
    var url := PublicUrl(storageKey);
    assert url[..|UploadsPrefix|] == UploadsPrefix;
    assert url[|UploadsPrefix|..] == storageKey;
  }

  /** `\w` of a JavaScript regular expression without the `u` flag. */
  predicate IsWordChar(c: char) {
    ('a' <= c <= 'z') || ('A' <= c <= 'Z') || ('0' <= c <= '9') || c == '_'
  }

  /** The pattern `\.(\w+)$` matches `key` starting at index `j`. */
  predicate ExtensionAt(key: string, j: int) {
    0 <= j && j + 1 < |key| && key[j] == '.' &&
    forall k :: j < k < |key| ==> IsWordChar(key[k])
  }

  /** The leftmost match at or after `from`, as a regular-expression search finds it. */
  function FirstExtensionFrom(key: string, from: nat): (r: Option<nat>)
    ensures r.Some? ==> from <= r.value && ExtensionAt(key, r.value)
    ensures r.Some? ==> forall k :: from <= k < r.value ==> !ExtensionAt(key, k)
    ensures r.None? ==> forall k :: from <= k ==> !ExtensionAt(key, k)
    decreases |key| - from
  {
    if from >= |key| then None
    else if ExtensionAt(key, from) then Some(from)
    else FirstExtensionFrom(key, from + 1)
  }

  /** `key.replace(/\.(\w+)$/, '_thumb.$1')`. */
  function ThumbKey(key: string): (r: string)
    ensures FirstExtensionFrom(key, 0).None? ==> r == key
    ensures FirstExtensionFrom(key, 0).Some? ==>
      var j := FirstExtensionFrom(key, 0).value;
      r == key[..j] + "_thumb." + key[j + 1..]
  {
    match FirstExtensionFrom(key, 0)
    case None => key
    case Some(j) => key[..j] + "_thumb." + key[j + 1..]
  }

  predicate IsWord(s: string) {
    |s| > 0 && forall k :: 0 <= k < |s| ==> IsWordChar(s[k])
  }

  function MainKey(keyBase: string, ext: string): string {
    keyBase + "." + ext
  }

  function StoredThumbKey(keyBase: string, ext: string): string {
    keyBase + "_thumb." + ext
  }

  function AvatarKeyBase(userId: int, stamp: string): string {
    "u/" + IntToString(userId) + "/a_" + stamp
  }

  function GalleryKeyBase(userId: int, position: int, stamp: string): string {
    "u/" + IntToString(userId) + "/g" + IntToString(position) + "_" + stamp
  }

  /**
   * The thumbnail a reader derives from a stored main key is the one written at upload,
   * whatever dots the key base contains.
   */
  lemma {:induction false} ThumbOfMainKey(keyBase: string, ext: string)
    requires IsWord(ext)
    ensures ThumbKey(MainKey(keyBase, ext)) == StoredThumbKey(keyBase, ext)
  {
    var key := MainKey(keyBase, ext);
    var j := |keyBase|;
    assert key[j] == '.';
    assert forall k :: j < k < |key| ==> key[k] == ext[k - j - 1];
    assert ExtensionAt(key, j);
    assert !IsWordChar('.');
    forall k | 0 <= k < j ensures !ExtensionAt(key, k) {
      assert key[j] == '.';
    }
    var r := FirstExtensionFrom(key, 0);
    assert r == Some(j);
    assert key[..j] == keyBase;
    assert key[j + 1..] == ext;
  }

  /** Every extension the server writes is a word. */
  lemma ExtensionsAreWords(mime: string)
    ensures IsWord(ExtFromMime(mime))
  {
    var ext := ExtFromMime(mime);
    assert ext == "jpg" || ext == "png" || ext == "webp";
  }

  lemma StoredThumbIsDerived(keyBase: string, mime: string)
    ensures ThumbKey(MainKey(keyBase, ExtFromMime(mime))) == StoredThumbKey(keyBase, ExtFromMime(mime))
  {
    ExtensionsAreWords(mime);
    ThumbOfMainKey(keyBase, ExtFromMime(mime));
  }
}
