/** The conversion worker's message handler: decode one image, encode it with an
    adaptive quality search that aims at half the input size, and reply with the
    converted file or an error message. The browser calls the handler makes are an
    oracle (`Browser`): each of them may throw or reject, and the catch block turns
    any such failure into an error reply. */
module ConversionWorker {
  import opened Common

  /** `maxAttempts` */
  const MaxAttempts: nat := 5

  /** The factor applied to the quality before each retry. */
  const QualityStep: real := 0.8

  const NoContextMessage: string := "Failed to get canvas context"
  const EmptyBlobMessage: string := "Generated blob is empty (0 bytes)"

  datatype Reply = Converted(file: ConvertedFile) | ErrorReply(message: string)

  /** How the browser answers the handler's calls for one message. An `Option` holds
      the message of the call's exception or rejection, if it fails. */
  datatype Browser = Browser(
    decodeError: Option<string>,    // `createImageBitmap(file)`
    canvasError: Option<string>,    // `new OffscreenCanvas(width, height)`
    contextAvailable: bool,         // `canvas.getContext('2d')` returns a context
    drawError: Option<string>,      // `ctx.drawImage(bitmap, 0, 0)`
    encode: nat -> Outcome<nat>,    // the k-th (0-based) `convertToBlob`: the blob's size, or its rejection
    readError: Option<string>)      // `blob.arrayBuffer()`

  /** The failure, if any, of the steps before the first encode, in the order the
      handler performs them. */
  function SetupError(b: Browser): Option<string>
  {
    if b.decodeError.Some? then b.decodeError
    else if b.canvasError.Some? then b.canvasError
    else if !b.contextAvailable then Some(NoContextMessage)
    else b.drawError
  }

  // ---------------------------------------------------------------------------
  // MIME type and output name

  /** `image/${outputFormat.toLowerCase()}` */
  function MimeType(outputFormat: string): (r: string)
    ensures StartsWith(r, "image/")
    ensures r[6..] == ToLower(outputFormat)
  {
    "image/" + ToLower(outputFormat)
  }

  /** The MIME type the worker uses holds no upper-case letter. */
  lemma MimeTypeIsImageType(outputFormat: string)
    ensures forall i :: 0 <= i < |MimeType(outputFormat)| ==> !('A' <= MimeType(outputFormat)[i] <= 'Z')
  {
    var m := MimeType(outputFormat);
    forall i | 0 <= i < |m|
      ensures !('A' <= m[i] <= 'Z')
    {
      if i >= 6 {
        assert m[i] == ToLower(outputFormat)[i - 6];
      }
    }
  }

  /** The `.` at index `i` begins the suffix matched by `/\.[^/.]+$/`: at least one
      character follows it and none of the following characters is `.` or `/`. */
  predicate IsExtensionDot(s: string, i: int)
  {
    0 <= i < |s| - 1 && s[i] == '.' &&
    forall j :: i < j < |s| ==> s[j] != '.' && s[j] != '/'
  }

  /** Scans `s[..j]` backwards for the dot that begins a matching suffix, knowing
      that `s[j..]` holds neither `.` nor `/`. */
  function ExtensionDotBefore(s: string, j: nat): (r: Option<nat>)
    requires j <= |s|
    requires forall k :: j <= k < |s| ==> s[k] != '.' && s[k] != '/'
    ensures r.Some? ==> IsExtensionDot(s, r.value)
    ensures r.None? ==> forall i :: 0 <= i < |s| ==> !IsExtensionDot(s, i)
    decreases j
  {
    if j == 0 then None
    else if s[j - 1] == '/' then None
    else if s[j - 1] == '.' then (if j < |s| then Some(j - 1) else None)
    else ExtensionDotBefore(s, j - 1)
  }

  /** A name has at most one extension dot: it is the last `.` of the name. */
  lemma ExtensionDotUnique(s: string, i: int, j: int)
    requires IsExtensionDot(s, i) && IsExtensionDot(s, j)
    ensures i == j
  {
  }

  /** The text `String.prototype.replace` inserts for one match of a pattern without
      capture groups: `$$` stands for `$`, `$&` for the matched text, `` $` `` for the
      text before the match and `$'` for the text after it; any other `$` is kept. */
  function Substitution(replacement: string, before: string, matched: string, after: string): (r: string)
    ensures '$' !in replacement ==> r == replacement
    decreases |replacement|
  {
    if replacement == [] then []
    else if |replacement| >= 2 && replacement[0] == '$' && replacement[1] in "$&`'" then
      var rest := Substitution(replacement[2..], before, matched, after);
      if replacement[1] == '$' then "$" + rest
      else if replacement[1] == '&' then matched + rest
      else if replacement[1] == '`' then before + rest
      else after + rest
    else
      [replacement[0]] + Substitution(replacement[1..], before, matched, after)
  }

  /** `file.name.replace(/\.[^/.]+$/, "." + outputFormat.toLowerCase())`: a name
      without a matching suffix is kept; otherwise the suffix, from its dot on, is
      replaced by the expanded replacement text. */
  function OutputName(name: string, outputFormat: string): (r: string)
    ensures (forall i :: 0 <= i < |name| ==> !IsExtensionDot(name, i)) ==> r == name
    ensures forall i :: IsExtensionDot(name, i)
              ==> r == name[..i] + Substitution("." + ToLower(outputFormat), name[..i], name[i..], "")
  {
    match ExtensionDotBefore(name, |name|)
    case Some(i) => name[..i] + Substitution("." + ToLower(outputFormat), name[..i], name[i..], "")
    case None => name
  }

  /** For a format without `$` (every format the page offers), exactly the last
      extension is swapped for the lower-cased format; everything before its dot
      is kept. */
  lemma OutputNameSwapsExtension(name: string, outputFormat: string, i: int)
    requires IsExtensionDot(name, i) && '$' !in outputFormat
    ensures OutputName(name, outputFormat) == name[..i] + "." + ToLower(outputFormat)
  {
    var replacement := "." + ToLower(outputFormat);
    forall k | 0 <= k < |replacement|
      ensures replacement[k] != '$'
    {
      if k > 0 {
        assert replacement[k] == LowerChar(outputFormat[k - 1]);
        assert outputFormat[k - 1] != '$';
      }
    }
  }

  lemma OutputNameExamples()
    ensures OutputName("photo.png", "JPEG") == "photo.jpeg"
  {
    assert ToLower("JPEG") == "jpeg";
    assert '$' !in "JPEG";
    assert IsExtensionDot("photo.png", 5) && "photo.png"[..5] == "photo";
    OutputNameSwapsExtension("photo.png", "JPEG", 5);
  }

  /** Only the last extension is swapped. */
  lemma OutputNameKeepsEarlierDots()
    ensures OutputName("a.tar.gz", "JPEG") == "a.tar.jpeg"
  {
    assert ToLower("JPEG") == "jpeg";
    assert '$' !in "JPEG";
    assert IsExtensionDot("a.tar.gz", 5) && "a.tar.gz"[..5] == "a.tar";
    OutputNameSwapsExtension("a.tar.gz", "JPEG", 5);
  }

  /** A name without an extension, or ending in a dot, is kept. */
  lemma OutputNameKeepExamples()
    ensures OutputName("README", "PNG") == "README"
    ensures OutputName("photo.", "PNG") == "photo."
  {
    assert !IsExtensionDot("photo.", 5);
  }

  /** `replace` expands `$` patterns in the format: `$&` inserts the matched
      extension itself. */
  lemma OutputNameExpandsDollarPatterns()
    ensures OutputName("a.png", "$&") == "a..png"
  {
    assert IsExtensionDot("a.png", 1);
    assert ToLower("$&") == "$&";
    assert "." + ToLower("$&") == ".$&";
    assert Substitution("$&", "a", ".png", "") == ".png" + Substitution("", "a", ".png", "");
    assert Substitution(".$&", "a", ".png", "") == "." + Substitution("$&", "a", ".png", "");
  }

  // ---------------------------------------------------------------------------
  // Quality schedule

  function Pow(x: real, k: nat): real
  {
    if k == 0 then 1.0 else x * Pow(x, k - 1)
  }

  /** The quality passed to the encoder at encode `k`: `quality / 100 * 0.8^k`. */
  function QualityAt(quality: int, k: nat): real
  {
    quality as real / 100.0 * Pow(QualityStep, k)
  }

  lemma {:induction false} PowStepBounds(k: nat)
    ensures 0.0 < Pow(QualityStep, k) <= 1.0
  {
    if k > 0 {
      PowStepBounds(k - 1);
    }
  }

  /** For a non-negative quality hint the quality never increases across attempts,
      and the first attempt uses `quality / 100`. */
  lemma {:induction false} QualityNonIncreasing(quality: int, j: nat, k: nat)
    requires 0 <= quality && j <= k
    ensures QualityAt(quality, k) <= QualityAt(quality, j)
    ensures QualityAt(quality, 0) == quality as real / 100.0
    decreases k
  {
    if j < k {
      QualityNonIncreasing(quality, j, k - 1);
      PowStepBounds(k - 1);
      var q := quality as real / 100.0;
      var p := Pow(QualityStep, k - 1);
      assert q * (QualityStep * p) <= q * p;
    }
  }

  // ---------------------------------------------------------------------------
  // Adaptive quality search

  /** `size > file.size * 0.5`, in integers. */
  predicate OverTarget(size: nat, fileSize: nat)
  {
    2 * size > fileSize
  }

  /** The search goes on after an encode that produced a blob over the target. A
      rejection throws, and an empty blob is never over the target (it throws too). */
  predicate Retries(encoded: Outcome<nat>, fileSize: nat)
  {
    encoded.Success? && OverTarget(encoded.value, fileSize)
  }

  /** The encode the search ends at when it reaches encode `k`: the first one from
      `k` on that does not call for a retry, or the last one the budget allows. */
  function KeptFrom(fileSize: nat, encode: nat -> Outcome<nat>, k: nat): (r: nat)
    requires k < MaxAttempts
    ensures k <= r < MaxAttempts
    ensures forall j :: k <= j < r ==> Retries(encode(j), fileSize)
    ensures r < MaxAttempts - 1 ==> !Retries(encode(r), fileSize)
    decreases MaxAttempts - k
  {
    if k == MaxAttempts - 1 || !Retries(encode(k), fileSize) then k
    else KeptFrom(fileSize, encode, k + 1)
  }

  /** The 0-based index of the last encode performed: every earlier one produced a
      blob over the target, and this one did not, unless it is the fifth. */
  function Kept(fileSize: nat, encode: nat -> Outcome<nat>): (r: nat)
    ensures r < MaxAttempts
    ensures forall j :: 0 <= j < r ==> Retries(encode(j), fileSize)
    ensures r < MaxAttempts - 1 ==> !Retries(encode(r), fileSize)
  {
    KeptFrom(fileSize, encode, 0)
  }

  /** The stop rule determines the last encode uniquely. */
  lemma KeptIsUnique(fileSize: nat, encode: nat -> Outcome<nat>, r: nat)
    requires r < MaxAttempts
    requires forall j :: 0 <= j < r ==> Retries(encode(j), fileSize)
    requires r == MaxAttempts - 1 || !Retries(encode(r), fileSize)
    ensures Kept(fileSize, encode) == r
  {
  }

  /** What the handler posts back for one message (the specification of
      `HandleMessage`). A set-up failure is replied as it is; otherwise a converted
      reply carries the non-empty blob of the last encode under the derived name and
      MIME type, and every error reply carries the message of the step that failed. */
  function Handle(file: SourceFile, outputFormat: string, b: Browser): (r: Reply)
    ensures SetupError(b).Some? ==> r == ErrorReply(SetupError(b).value)
    ensures r.Converted? ==>
              var k := Kept(file.size, b.encode);
              && b.encode(k).Success?
              && r.file == ConvertedFile(OutputName(file.name, outputFormat), Encoding(k, b.encode(k).value),
                                         MimeType(outputFormat))
              && r.file.payload.byteLength > 0
    ensures r.ErrorReply? && SetupError(b).None? ==>
              var e := b.encode(Kept(file.size, b.encode));
              || (e.Failure? && r.message == e.message)
              || (e == Success(0) && r.message == EmptyBlobMessage)
              || (e.Success? && e.value > 0 && b.readError == Some(r.message))
  {
    if SetupError(b).Some? then ErrorReply(SetupError(b).value)
    else
      var k := Kept(file.size, b.encode);
      match b.encode(k)
      case Failure(m) => ErrorReply(m)
      case Success(size) =>
        if size == 0 then ErrorReply(EmptyBlobMessage)
        else if b.readError.Some? then ErrorReply(b.readError.value)
        else Converted(ConvertedFile(OutputName(file.name, outputFormat), Encoding(k, size), MimeType(outputFormat)))
  }

  /** How many times the handler calls the encoder: never after a set-up failure,
      at most five times otherwise. */
  function EncodeCount(file: SourceFile, b: Browser): (r: nat)
    ensures r <= MaxAttempts
    ensures r == 0 <==> SetupError(b).Some?
  {
    if SetupError(b).Some? then 0 else Kept(file.size, b.encode) + 1
  }

  /** The worker's message handler. `qualities` lists the quality passed to each
      encoder call, in order. */
  method HandleMessage(file: SourceFile, outputFormat: string, quality: int, browser: Browser)
    returns (reply: Reply, qualities: seq<real>)
    ensures reply == Handle(file, outputFormat, browser)
    ensures |qualities| == EncodeCount(file, browser)
    ensures forall j :: 0 <= j < |qualities| ==> qualities[j] == QualityAt(quality, j)
  {
    qualities := [];
    if browser.decodeError.Some? {
      return ErrorReply(browser.decodeError.value), qualities;
    }
    if browser.canvasError.Some? {
      return ErrorReply(browser.canvasError.value), qualities;
    }
    if !browser.contextAvailable {
      return ErrorReply(NoContextMessage), qualities;
    }
    if browser.drawError.Some? {
      return ErrorReply(browser.drawError.value), qualities;
    }
    var mimeType := MimeType(outputFormat);
    var targetQuality := quality as real / 100.0;
    var attempts: nat := 0;
    var blob: Encoding;
    while true
      invariant attempts < MaxAttempts
      invariant targetQuality == QualityAt(quality, attempts)
      invariant |qualities| == attempts
      invariant forall j :: 0 <= j < attempts ==> qualities[j] == QualityAt(quality, j)
      invariant forall j :: 0 <= j < attempts ==> Retries(browser.encode(j), file.size)
      decreases MaxAttempts - attempts
    {
      qualities := qualities + [targetQuality];
      var encoded := browser.encode(attempts);
      if encoded.Failure? {
        KeptIsUnique(file.size, browser.encode, attempts);
        return ErrorReply(encoded.message), qualities;
      }
      blob := Encoding(attempts, encoded.value);
      if blob.byteLength == 0 {
        KeptIsUnique(file.size, browser.encode, attempts);
        return ErrorReply(EmptyBlobMessage), qualities;
      }
      if OverTarget(blob.byteLength, file.size) && attempts < MaxAttempts {
        targetQuality := targetQuality * QualityStep;
        attempts := attempts + 1;
      } else {
        KeptIsUnique(file.size, browser.encode, attempts);
        break;
      }
      if attempts >= MaxAttempts {
        KeptIsUnique(file.size, browser.encode, attempts - 1);
        break;
      }
    }
    // the re-checks of the final blob and of its array buffer never fire
    assert blob.byteLength != 0;
    if browser.readError.Some? {
      return ErrorReply(browser.readError.value), qualities;
    }
    reply := Converted(ConvertedFile(OutputName(file.name, outputFormat), blob, mimeType));
  }

  // ---------------------------------------------------------------------------
  // Properties of the search

  /** If the first encode already meets the target, exactly one encode happens. */
  lemma FirstFitEncodesOnce(file: SourceFile, b: Browser)
    requires SetupError(b).None?
    requires b.encode(0).Success? && !OverTarget(b.encode(0).value, file.size)
    ensures EncodeCount(file, b) == 1
  {
    KeptIsUnique(file.size, b.encode, 0);
  }

  /** If no encode meets the target, five encodes happen and the fifth blob is the
      one returned. */
  lemma NoFitKeepsFifthEncode(file: SourceFile, outputFormat: string, b: Browser)
    requires SetupError(b).None? && b.readError.None?
    requires forall j :: 0 <= j < MaxAttempts ==> Retries(b.encode(j), file.size)
    ensures EncodeCount(file, b) == MaxAttempts
    ensures Handle(file, outputFormat, b).Converted?
    ensures Handle(file, outputFormat, b).file.payload == Encoding(MaxAttempts - 1, b.encode(MaxAttempts - 1).value)
  {
    KeptIsUnique(file.size, b.encode, MaxAttempts - 1);
  }

  /** A zero-byte blob aborts at once: it is the last encode and the reply is an error. */
  lemma EmptyEncodeAborts(file: SourceFile, outputFormat: string, b: Browser, z: nat)
    requires SetupError(b).None?
    requires z < MaxAttempts && b.encode(z) == Success(0)
    requires forall j :: 0 <= j < z ==> Retries(b.encode(j), file.size)
    ensures EncodeCount(file, b) == z + 1
    ensures Handle(file, outputFormat, b) == ErrorReply(EmptyBlobMessage)
  {
    KeptIsUnique(file.size, b.encode, z);
  }

  /** A rejected encode aborts at once: it is the last encode and its message is
      the reply. */
  lemma EncodeRejectionAborts(file: SourceFile, outputFormat: string, b: Browser, z: nat)
    requires SetupError(b).None?
    requires z < MaxAttempts && b.encode(z).Failure?
    requires forall j :: 0 <= j < z ==> Retries(b.encode(j), file.size)
    ensures EncodeCount(file, b) == z + 1
    ensures Handle(file, outputFormat, b) == ErrorReply(b.encode(z).message)
  {
    KeptIsUnique(file.size, b.encode, z);
  }

  /** The reply against the encoder calls: a set-up failure (a decode failure first
      of all) is replied before any encode; a reply is converted exactly when the
      set-up, the last encode and the read of its buffer succeed with a non-empty
      blob, and then it carries the blob of the last of the `n` encodes. */
  lemma ReplyShape(file: SourceFile, outputFormat: string, b: Browser)
    ensures var reply := Handle(file, outputFormat, b);
            var n := EncodeCount(file, b);
            && (b.decodeError.Some? ==> reply == ErrorReply(b.decodeError.value) && n == 0)
            && (reply.Converted? <==>
                  n > 0 && b.encode(n - 1).Success? && b.encode(n - 1).value > 0 && b.readError.None?)
            && (reply.Converted? ==> reply.file.payload == Encoding(n - 1, b.encode(n - 1).value))
  {
  }
}
