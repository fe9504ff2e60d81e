/**
 * `DocType::from(Bytes)` of src/doc.rs: the kind of an iroh document, read
 * from the value of its ".type" key.
 *
 * The bytes are decoded as UTF-8 and the decoding is unwrapped, so bytes
 * that are not UTF-8 panic; the model makes valid UTF-8 a precondition.
 */
module DocTypes {
  import opened Wrappers
  import opened Bytes
  import Utf8

  /** `DocType`. */
  datatype DocType = DirDoc | ChildrenDoc | MetadataDoc | ChunksDoc | FileDoc | RootDoc | Unknown

  /** The name each known kind is stored under; none for `Unknown`. */
  function TypeName(t: DocType): Option<string>
  {
    match t
    case RootDoc => Some("root")
    case DirDoc => Some("dir")
    case ChildrenDoc => Some("children")
    case MetadataDoc => Some("metadata")
    case FileDoc => Some("file")
    case ChunksDoc => Some("chunks")
    case Unknown => None
  }

  /** The kind a decoded name stands for: `Unknown` for any other string. */
  function FromName(s: string): (r: DocType)
    ensures r != Unknown ==> TypeName(r) == Some(s)
    ensures r == Unknown ==> forall t :: TypeName(t) != Some(s)
  {
    if s == "root" then RootDoc
    else if s == "dir" then DirDoc
    else if s == "children" then ChildrenDoc
    else if s == "metadata" then MetadataDoc
    else if s == "file" then FileDoc
    else if s == "chunks" then ChunksDoc
    else Unknown
  }

  /** `DocType::from(bytes)`. */
  function DocTypeFrom(bytes: seq<Byte>): (r: DocType)
    requires Utf8.Decode(bytes).Some?
    ensures r != Unknown ==> Utf8.Encode(TypeName(r).value) == bytes
  {
    Utf8.EncodeDecode(bytes);
    FromName(Utf8.Decode(bytes).value)
  }

  /**
   * Each known kind is read back from the encoding of its own name, so
   * the six names stand for six different kinds (`test_doc_type` reads
   * "children" as `ChildrenDoc`).
   */
  lemma DocTypeRoundTrip(t: DocType)
    requires t != Unknown
    ensures Utf8.Decode(Utf8.Encode(TypeName(t).value)).Some?
    ensures DocTypeFrom(Utf8.Encode(TypeName(t).value)) == t
  {
    Utf8.DecodeEncode(TypeName(t).value);
  }

  /** Two byte strings that name the same known kind are the same bytes. */
  lemma DocTypeInjective(a: seq<Byte>, b: seq<Byte>)
    requires Utf8.Decode(a).Some? && Utf8.Decode(b).Some?
    requires DocTypeFrom(a) == DocTypeFrom(b) != Unknown
    ensures a == b
  {
  }
}
