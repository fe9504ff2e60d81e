/**
 * The path and key helpers of src/lis-proto-1/util.rs.
 *
 * A `NamespaceId` is the 32 bytes of a document's public key, so its
 * conversion to bytes is the identity on those bytes and the conversion
 * back is a length check. Document keys are UTF-8 strings padded with NUL
 * bytes; `key_to_string` decodes them with the decoder of the `Utf8` module
 * and strips the padding.
 */
module LisUtil {
  import opened Wrappers
  import opened Bytes
  import opened Paths
  import Utf8

  /** The length of a namespace id, `[u8; 32]`. */
  const NamespaceIdLength: nat := 32

  /** `NamespaceId`: exactly 32 bytes. */
  type NamespaceId = b: seq<Byte> | |b| == NamespaceIdLength witness seq(32, i => 0)

  /** Why a conversion failed: a byte string of the wrong length, or bytes that are not UTF-8. */
  datatype UtilError = WrongLength(len: nat) | InvalidUtf8

  /** `namespaceid_to_bytes(id)`: the id's 32 bytes. */
  function NamespaceIdToBytes(id: NamespaceId): (r: seq<Byte>)
    ensures |r| == NamespaceIdLength
  {
    id
  }

  /** `bytes_to_namespaceid(bytes)`: succeeds exactly on 32 bytes, and keeps them. */
  function BytesToNamespaceId(bytes: seq<Byte>): (r: Result<NamespaceId, UtilError>)
    ensures r.Ok? <==> |bytes| == NamespaceIdLength
    ensures r.Ok? ==> r.value == bytes
    ensures r.Err? ==> r.error == WrongLength(|bytes|)
  {
    if |bytes| == NamespaceIdLength then
      var id: NamespaceId := bytes;
      Ok(id)
    else Err(WrongLength(|bytes|))
  }

  /** An id converted to bytes and back is the same id (`test_bytes_to_namespaceid`). */
  lemma NamespaceIdRoundTrip(id: NamespaceId)
    ensures BytesToNamespaceId(NamespaceIdToBytes(id)) == Ok(id)
  {
  }

  /** Bytes accepted as an id convert back to themselves. */
  lemma BytesRoundTrip(bytes: seq<Byte>)
    requires BytesToNamespaceId(bytes).Ok?
    ensures NamespaceIdToBytes(BytesToNamespaceId(bytes).value) == bytes
  {
  }

  /** The path is absolute: `path.starts_with("/")`, its first component is the root. */
  predicate Absolute(path: Path)
  {
    StartsWith(path, [RootDir])
  }

  /**
   * `add_leading_slash(path)`: an absolute path is returned as it is; a
   * relative one is pushed onto "/", which puts the root in front of its
   * components.
   */
  function AddLeadingSlash(path: Path): (r: Path)
    ensures Absolute(r)
    ensures |r| == if Absolute(path) then |path| else |path| + 1
  {
    if !Absolute(path) then [RootDir] + path else path
  }

  /**
   * An absolute path is left alone, a relative one keeps its components
   * after the root, and adding a leading slash twice adds it once.
   */
  lemma AddLeadingSlashEffect(path: Path)
    ensures Absolute(path) ==> AddLeadingSlash(path) == path
    ensures !Absolute(path) ==> AddLeadingSlash(path)[0] == RootDir && AddLeadingSlash(path)[1..] == path
    ensures AddLeadingSlash(AddLeadingSlash(path)) == AddLeadingSlash(path)
  {
  }

  const Nul: char := '\0'

  /** `trim_end_matches('\0')`: the string without its trailing NULs. */
  function TrimEndNul(s: string): (r: string)
    ensures |r| <= |s| && r == s[..|r|]
    ensures r == [] || r[|r| - 1] != Nul
    ensures forall i :: |r| <= i < |s| ==> s[i] == Nul
    decreases |s|
  {
    if s != [] && s[|s| - 1] == Nul then TrimEndNul(s[..|s| - 1]) else s
  }

  /** `key_to_string(key)`: the decoded key without its NUL padding, or an error for bytes that are not UTF-8. */
  function KeyToString(key: seq<Byte>): (r: Result<string, UtilError>)
    ensures r.Ok? <==> Utf8.Decode(key).Some?
    ensures r.Err? ==> r.error == InvalidUtf8
  {
    match Utf8.Decode(key)
    case None => Err(InvalidUtf8)
    case Some(s) => Ok(TrimEndNul(s))
  }

  /** NUL characters encode as NUL bytes, one each. */
  lemma {:induction false} EncodeNuls(k: nat)
    ensures Utf8.Encode(seq(k, i => Nul)) == seq(k, i => 0)
    decreases k
  {
    if k > 0 {
      var s := seq(k, i => Nul);
      assert s[1..] == seq(k - 1, i => Nul);
      EncodeNuls(k - 1);
      assert [0] + seq(k - 1, i => 0) == seq(k, i => 0);
    }
  }

  /** Trailing NULs are all that trimming removes from a string that does not end with one. */
  lemma {:induction false} TrimPadded(s: string, k: nat)
    requires s == [] || s[|s| - 1] != Nul
    ensures TrimEndNul(s + seq(k, i => Nul)) == s
    decreases k
  {
    if k > 0 {
      var p := s + seq(k, i => Nul);
      assert p[..|p| - 1] == s + seq(k - 1, i => Nul);
      TrimPadded(s, k - 1);
    } else {
      assert s + seq(0, i => Nul) == s;
    }
  }

  /**
   * A key stored as the UTF-8 encoding of a string followed by any number of
   * NUL bytes reads back as that string, provided the string does not itself
   * end with a NUL.
   */
  lemma KeyRoundTrip(s: string, k: nat)
    requires s == [] || s[|s| - 1] != Nul
    ensures KeyToString(Utf8.Encode(s) + seq(k, i => 0)) == Ok(s)
  {
    var nuls := seq(k, i => Nul);
    EncodeNuls(k);
    Utf8.EncodeAppend(s, nuls);
    Utf8.DecodeEncode(s + nuls);
    TrimPadded(s, k);
  }
}
