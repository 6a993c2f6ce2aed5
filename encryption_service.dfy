/**
  The body codec: `encryptData(x) = btoa(JSON.stringify(x))` and
  `decryptData(t) = JSON.parse(atob(t))`. JSON text (RFC 8259) is left
  abstract as a serialiser; `btoa` and `atob` are modelled over binary
  strings, whose code points are at most 0xFF.
 */
module EncryptionService {
  import opened Wrappers
  import opened Base64

  /** JSON.stringify and JSON.parse for values of type V. */
  datatype Serializer<!V> = Serializer(stringify: V -> string, parse: string -> Option<V>)

  /** What `btoa`, `atob` and `JSON.parse` throw. */
  datatype CodecError =
    | InvalidCharacterError  // btoa: a code point above 0xFF; atob: text that is not base64
    | SyntaxError            // JSON.parse: text that is not JSON

  predicate IsBinaryString(s: string) {
    forall i :: 0 <= i < |s| ==> s[i] as int < 256
  }

  function ToBytes(s: string): seq<Byte>
    requires IsBinaryString(s)
  {
    seq(|s|, i requires 0 <= i < |s| => s[i] as int)
  }

  function FromBytes(b: seq<Byte>): string {
    seq(|b|, i requires 0 <= i < |b| => b[i] as char)
  }

  /** `btoa`: Base64 of a binary string; throws on any wider code point. */
  function Btoa(s: string): (r: Result<string, CodecError>)
    ensures r.Success? <==> IsBinaryString(s)
    ensures r.Failure? ==> r.error == InvalidCharacterError
    ensures r.Success? ==> |r.value| == 4 * ((|s| + 2) / 3)
  {
    if IsBinaryString(s) then Success(Encode(ToBytes(s))) else Failure(InvalidCharacterError)
  }

  /** `atob`: the binary string a Base64 text stands for; throws exactly on
      text that is not well-formed Base64. */
  function Atob(t: string): (r: Result<string, CodecError>)
    ensures r.Success? <==> WellFormed(t)
    ensures r.Success? ==> IsBinaryString(r.value)
    ensures r.Failure? ==> r.error == InvalidCharacterError
  {
    match Decode(t)
    case None => Failure(InvalidCharacterError)
    case Some(b) => Success(FromBytes(b))
  }

  /** `encryptData`: throws exactly when the JSON text has a code point above 0xFF. */
  function EncryptData<V>(sz: Serializer<V>, x: V): (r: Result<string, CodecError>)
    ensures r.Success? <==> IsBinaryString(sz.stringify(x))
    ensures r.Failure? ==> r.error == InvalidCharacterError
    ensures r.Success? ==> |r.value| == 4 * ((|sz.stringify(x)| + 2) / 3)
  {
    Btoa(sz.stringify(x))
  }

  /** `decryptData`: InvalidCharacterError exactly on text that is not
      well-formed Base64, SyntaxError exactly when the decoded text does not
      parse, and otherwise the parsed value. */
  function DecryptData<V>(sz: Serializer<V>, t: string): (r: Result<V, CodecError>)
    ensures r == Failure(InvalidCharacterError) <==> !WellFormed(t)
    ensures r == Failure(SyntaxError) <==> WellFormed(t) && sz.parse(Atob(t).value).None?
    ensures r.Success? ==> WellFormed(t) && sz.parse(Atob(t).value) == Some(r.value)
  {
    var text :- Atob(t);
    match sz.parse(text)
    case None => Failure(SyntaxError)
    case Some(v) => Success(v)
  }

  lemma ToBytesFromBytes(s: string)
    requires IsBinaryString(s)
    ensures FromBytes(ToBytes(s)) == s
  {
  }

  /** atob(btoa(s)) == s for every binary string. */
  lemma AtobBtoa(s: string)
    requires IsBinaryString(s)
    ensures Btoa(s).Success? && Atob(Btoa(s).value) == Success(s)
  {
    RoundTrip(ToBytes(s));
    ToBytesFromBytes(s);
  }

  /** decryptData(encryptData(x)) == x for every value that JSON carries
      losslessly and whose JSON text `btoa` accepts. */
  lemma DecryptEncrypt<V>(sz: Serializer<V>, x: V)
    requires sz.parse(sz.stringify(x)) == Some(x)
    requires IsBinaryString(sz.stringify(x))
    ensures EncryptData(sz, x).Success?
    ensures DecryptData(sz, EncryptData(sz, x).value) == Success(x)
  {
    AtobBtoa(sz.stringify(x));
  }

  /** The shape of an encrypted body: 4 * ceil(n / 3) characters of the
      alphabet, then at most two '='. */
  lemma EncryptShape<V>(sz: Serializer<V>, x: V)
    requires EncryptData(sz, x).Success?
    ensures var n := |sz.stringify(x)|; var r := EncryptData(sz, x).value;
      && |r| == 4 * ((n + 2) / 3)
      && (forall i :: 0 <= i < |r| - PadCount(n) ==> IsBase64Char(r[i]))
      && (forall i :: |r| - PadCount(n) <= i < |r| ==> r[i] == PadChar)
  {
  }
}
