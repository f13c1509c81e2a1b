/** `encode_document_key`: the index id of a blob is base64url of its name's UTF-8 bytes. */
module DocumentKey {
  import opened Wrappers
  import Utf8
  import Base64Url

  /** The id under which a file's document is stored in the search index. */
  function EncodeDocumentKey(name: string): (id: string)
    ensures |id| == 4 * ((|Utf8.Encode(name)| + 2) / 3)
    ensures forall i :: 0 <= i < |id| ==> Base64Url.IsKeyChar(id[i])
  {
    Base64Url.EncodeLength(Utf8.Encode(name));
    Base64Url.EncodeAlphabet(Utf8.Encode(name));
    Base64Url.Encode(Utf8.Encode(name))
  }

  /** The partner of EncodeDocumentKey, recovering a file name from an id. */
  function DecodeDocumentKey(id: string): Option<string>
  {
    match Base64Url.Decode(id)
    case Some(bytes) => Utf8.Decode(bytes)
    case None => None
  }

  lemma DecodeEncodeDocumentKey(name: string)
    ensures DecodeDocumentKey(EncodeDocumentKey(name)) == Some(name)
  {
    Base64Url.DecodeEncode(Utf8.Encode(name));
    Utf8.DecodeEncode(name);
  }

  /** Two file names share an id exactly when they are the same name. */
  lemma EncodeDocumentKeyInjective(a: string, b: string)
    ensures EncodeDocumentKey(a) == EncodeDocumentKey(b) <==> a == b
  {
    if EncodeDocumentKey(a) == EncodeDocumentKey(b) {
      DecodeEncodeDocumentKey(a);
      DecodeEncodeDocumentKey(b);
    }
  }
}
