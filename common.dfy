/** Values shared by the conversion pipeline: files, encoded payloads,
    settled outcomes and the small string helpers the source relies on. */
module Common {

  datatype Option<+T> = None | Some(value: T)

  /** A settled promise: resolved with a value, or rejected with an error message. */
  datatype Outcome<+R> = Success(value: R) | Failure(message: string)

  /** A browser `File`: display name, declared media type and byte size. */
  datatype SourceFile = SourceFile(name: string, mimeType: string, size: nat)

  /** An encoded blob: the 0-based encoder call that produced it and its length in bytes. */
  datatype Encoding = Encoding(attempt: nat, byteLength: nat)

  /** What the worker posts back on success: `{name, arrayBuffer, mimeType}`. */
  datatype ConvertedFile = ConvertedFile(name: string, payload: Encoding, mimeType: string)

  /** `s.startsWith(prefix)` */
  predicate StartsWith(s: string, prefix: string)
  {
    |prefix| <= |s| && s[..|prefix|] == prefix
  }

  /** `toLowerCase` on one character, restricted to ASCII letters. */
  function LowerChar(c: char): char
  {
    if 'A' <= c <= 'Z' then (c as int + 32) as char else c
  }

  function ToLower(s: string): (r: string)
    ensures |r| == |s|
    ensures forall i :: 0 <= i < |s| ==> r[i] == LowerChar(s[i])
  {
    seq(|s|, i requires 0 <= i < |s| => LowerChar(s[i]))
  }
}
