/** web/server.js: which uploads are accepted, the name an accepted image is
    stored under, the replies of the upload route and of the error handler,
    and the path guard of the image route.

    Node's POSIX `path.extname` is written out; `path.join`,
    `path.normalize`, the image decoder, the game lookup, the file system and
    the URI decoder are parameters. */
module Upload {
  import opened Text
  import ImageCoverage

  const MAX_FILE_SIZE: nat := 20 * 1024 * 1024
  const ALLOWED_MIMES: seq<string> := ["image/jpeg", "image/png", "image/webp"]
  const ALLOWED_EXTS: seq<string> := [".jpg", ".jpeg", ".png", ".webp"]

  // ------------------------------------------------------------ path.extname

  /** The path without its trailing slashes. */
  function TrimSlashes(path: string): (r: string)
    ensures |r| <= |path| && r == path[..|r|]
    ensures r == [] || r[|r| - 1] != '/'
    ensures forall i :: |r| <= i < |path| ==> path[i] == '/'
  {
    if path != [] && path[|path| - 1] == '/' then TrimSlashes(path[..|path| - 1]) else path
  }

  /** The part after the last slash. */
  function LastComponent(path: string): (r: string)
    ensures |r| <= |path| && r == path[|path| - |r|..]
    ensures forall i :: 0 <= i < |r| ==> r[i] != '/'
    ensures |r| < |path| ==> path[|path| - |r| - 1] == '/'
  {
    var slash := LastIndexOf(path, '/');
    if slash.None? then path else path[slash.value + 1..]
  }

  /** `path.extname`: from the last dot of the last component to its end,
      unless there is no dot, the dot begins the component, or the
      component is "..". */
  function ExtName(path: string): (r: string)
    ensures r == [] || (r[0] == '.' && EndsWith(TrimSlashes(path), r))
    ensures forall i :: 0 <= i < |r| ==> r[i] != '/' && (i > 0 ==> r[i] != '.')
  {
    var part := LastComponent(TrimSlashes(path));
    var dot := LastIndexOf(part, '.');
    if dot.None? || dot.value == 0 || part == ".." then "" else part[dot.value..]
  }

  /** A one-dot extension after a non-empty stem is what `extname` finds. */
  lemma ExtNameOf(stem: string, ext: string)
    requires stem != [] && forall i :: 0 <= i < |stem| ==> stem[i] != '/'
    requires |ext| >= 2 && ext[0] == '.'
    requires forall i :: 0 < i < |ext| ==> ext[i] != '.' && ext[i] != '/'
    ensures ExtName(stem + ext) == ext
  {
    var path := stem + ext;
    assert TrimSlashes(path) == path;
    assert LastComponent(path) == path by {
      assert forall i :: 0 <= i < |path| ==> path[i] != '/' by {
        forall i | 0 <= i < |path| ensures path[i] != '/' {
          if i >= |stem| {
            assert path[i] == ext[i - |stem|];
          }
        }
      }
    }
    assert path[|stem|] == '.';
    forall i | |stem| < i < |path| ensures path[i] != '.' {
      assert path[i] == ext[i - |stem|];
    }
    assert path[|stem|..] == ext;
  }

  // -------------------------------------------------------------- fileFilter

  /** `fileFilter`: the lower-cased MIME type and the lower-cased extension
      are both among the allowed ones. */
  predicate Accepts(originalname: string, mimetype: string) {
    Lower(mimetype) in ALLOWED_MIMES && Lower(ExtName(originalname)) in ALLOWED_EXTS
  }

  // --------------------------------------------------------- upload filename

  /** A game as the lookup returns it; `None` is a missing field. */
  datatype GameMeta = GameMeta(name: Option<string>, year: Option<string>)

  /** A template literal renders a missing field as "undefined". */
  function Render(field: Option<string>): string {
    if field.Some? then field.value else "undefined"
  }

  /** `${game.name} (${game.year})${ext}` with the original extension lower-cased. */
  function StoredName(game: GameMeta, originalname: string): (r: string)
    ensures |r| >= 3 && EndsWith(r, Lower(ExtName(originalname)))
  {
    Render(game.name) + " (" + Render(game.year) + ")" + Lower(ExtName(originalname))
  }

  /** JavaScript's `\s`: the ASCII spaces, NBSP, the Unicode space separators,
      the line and paragraph separators and the byte-order mark. */
  predicate IsJsSpace(c: char) {
    c == '\t' || c == '\n' || c == '\U{B}' || c == '\U{C}' || c == '\r' || c == ' '
    || c == '\U{A0}' || c == '\U{1680}' || ('\U{2000}' <= c <= '\U{200A}')
    || c == '\U{2028}' || c == '\U{2029}' || c == '\U{202F}' || c == '\U{205F}'
    || c == '\U{3000}' || c == '\U{FEFF}'
  }

  /** The characters `[a-zA-Z0-9\s().-]` keeps. */
  predicate Kept(c: char) {
    IsAlnum(c) || IsJsSpace(c) || c == '(' || c == ')' || c == '.' || c == '-'
  }

  /** `filename.replace(/[^a-zA-Z0-9\s().-]/g, '_')`: one character for one. */
  function Sanitize(s: string): (r: string)
    ensures |r| == |s|
    ensures forall i :: 0 <= i < |s| ==> r[i] == if Kept(s[i]) then s[i] else '_'
  {
    if s == [] then [] else [if Kept(s[0]) then s[0] else '_'] + Sanitize(s[1..])
  }

  /** A sanitised name holds only kept characters and underscores, so a
      second pass changes nothing. */
  lemma SanitizeIdempotent(s: string)
    ensures forall i :: 0 <= i < |Sanitize(s)| ==> Kept(Sanitize(s)[i]) || Sanitize(s)[i] == '_'
    ensures Sanitize(Sanitize(s)) == Sanitize(s)
  {
  }

  /** A name made of kept characters is left as it is. */
  lemma SanitizeKeeps(s: string)
    requires forall i :: 0 <= i < |s| ==> Kept(s[i])
    ensures Sanitize(s) == s
  {
  }

  /** Sanitising works character by character, so it distributes over concatenation. */
  lemma SanitizeAppend(a: string, b: string)
    ensures Sanitize(a + b) == Sanitize(a) + Sanitize(b)
  {
    assert forall i :: 0 <= i < |b| ==> (a + b)[|a| + i] == b[i];
  }

  /** No path separator of either kind survives sanitising. */
  lemma SanitizeNoSeparator(s: string)
    ensures forall i :: 0 <= i < |Sanitize(s)| ==> Sanitize(s)[i] != '/' && Sanitize(s)[i] != '\\'
  {
    assert !Kept('/') && !Kept('\\');
  }

  /** A stored name is one path component: no separator of either kind, and
      never "." or "..", being at least three characters long. */
  lemma StoredNameSingleComponent(game: GameMeta, originalname: string)
    ensures var f := Sanitize(StoredName(game, originalname));
      (forall i :: 0 <= i < |f| ==> f[i] != '/' && f[i] != '\\') && f != "." && f != ".."
  {
    SanitizeNoSeparator(StoredName(game, originalname));
  }

  /** The four extensions consist of kept characters and are in lower case. */
  lemma AllowedExtsKept(k: int)
    requires 0 <= k < |ALLOWED_EXTS|
    ensures forall i :: 0 <= i < |ALLOWED_EXTS[k]| ==> Kept(ALLOWED_EXTS[k][i])
    ensures Lower(ALLOWED_EXTS[k]) == ALLOWED_EXTS[k]
  {
    var ext := ALLOWED_EXTS[k];
    assert forall i :: 0 <= i < |ext| ==> ext[i] == '.' || IsLowerLetter(ext[i]);
  }

  /** Lower-casing keeps a suffix that is already in lower case. */
  lemma LowerKeepsSuffix(f: string, ext: string)
    requires EndsWith(f, ext) && Lower(ext) == ext
    ensures EndsWith(Lower(f), ext)
  {
    var stem := f[..|f| - |ext|];
    assert f == stem + ext;
    LowerAppend(stem, ext);
    assert Lower(f)[|f| - |ext|..] == ext;
  }

  /** A name ending in one of the four extensions passes the image tool's
      listing filter. */
  lemma EndsInAllowedIsListed(f: string, k: int)
    requires 0 <= k < |ALLOWED_EXTS| && EndsWith(f, ALLOWED_EXTS[k])
    ensures ImageCoverage.HasImageExtension(f)
  {
    AllowedExtsKept(k);
    LowerKeepsSuffix(f, ALLOWED_EXTS[k]);
    assert ALLOWED_EXTS[k] == ".jpg" || ALLOWED_EXTS[k] == ".jpeg" || ALLOWED_EXTS[k] == ".png" || ALLOWED_EXTS[k] == ".webp";
  }

  /** Appending a kept extension commutes with sanitising. */
  lemma SanitizeWithExt(stem: string, k: int)
    requires 0 <= k < |ALLOWED_EXTS|
    ensures Sanitize(stem + ALLOWED_EXTS[k]) == Sanitize(stem) + ALLOWED_EXTS[k]
  {
    AllowedExtsKept(k);
    SanitizeAppend(stem, ALLOWED_EXTS[k]);
    SanitizeKeeps(ALLOWED_EXTS[k]);
  }

  /** An accepted upload is stored under a name ending in one of the four
      extensions in lower case, which the image tool's listing keeps. */
  lemma AcceptedIsListed(game: GameMeta, originalname: string, mimetype: string)
    requires Accepts(originalname, mimetype)
    ensures exists k :: 0 <= k < |ALLOWED_EXTS| && EndsWith(Sanitize(StoredName(game, originalname)), ALLOWED_EXTS[k])
    ensures ImageCoverage.HasImageExtension(Sanitize(StoredName(game, originalname)))
  {
    var ext := Lower(ExtName(originalname));
    var stored := StoredName(game, originalname);
    var k :| 0 <= k < |ALLOWED_EXTS| && ALLOWED_EXTS[k] == ext;
    var stem := stored[..|stored| - |ext|];
    assert stored == stem + ext;
    SanitizeWithExt(stem, k);
    var f := Sanitize(stem) + ext;
    assert f[|f| - |ext|..] == ext;
    EndsInAllowedIsListed(f, k);
  }

  /** Every character is one the sanitiser keeps. */
  predicate AllKept(s: string) {
    forall i :: 0 <= i < |s| ==> Kept(s[i])
  }

  lemma AllKeptAppend(a: string, b: string)
    requires AllKept(a) && AllKept(b)
    ensures AllKept(a + b)
  {
    forall i | 0 <= i < |a + b| ensures Kept((a + b)[i]) {
      if i >= |a| {
        assert (a + b)[i] == b[i - |a|];
      }
    }
  }

  /** The punctuation of the stored name survives sanitising. */
  lemma PunctuationKept()
    ensures AllKept(" (") && AllKept(")")
  {
    assert Kept(' ') && Kept('(') && Kept(')');
  }

  /** The name "<name> (<year>)<ext>" of kept characters is left as it is. */
  lemma SanitizeKeepsStoredName(name: string, year: string, ext: string)
    requires AllKept(name) && AllKept(year) && AllKept(ext)
    ensures Sanitize(name + " (" + year + ")" + ext) == name + " (" + year + ")" + ext
  {
    PunctuationKept();
    AllKeptAppend(name, " (");
    AllKeptAppend(name + " (", year);
    AllKeptAppend(name + " (" + year, ")");
    AllKeptAppend(name + " (" + year + ")", ext);
    SanitizeKeeps(name + " (" + year + ")" + ext);
  }

  /** A game whose name and year hold only kept characters gets its upload
      stored under the name the image tool looks for. */
  lemma UploadMatchesExpected(name: string, year: string, originalname: string, mimetype: string)
    requires Accepts(originalname, mimetype)
    requires AllKept(name) && AllKept(year)
    ensures Sanitize(StoredName(GameMeta(Some(name), Some(year)), originalname)) ==
      ImageCoverage.ExpectedFilename(ImageCoverage.GameEntry(Some(name), Some(year), [])) + Lower(ExtName(originalname))
  {
    var ext := Lower(ExtName(originalname));
    var k :| 0 <= k < |ALLOWED_EXTS| && ALLOWED_EXTS[k] == ext;
    AllowedExtsKept(k);
    SanitizeKeepsStoredName(name, year, ext);
  }

  // ------------------------------------------------------------ upload route

  /** The uploaded part as multer hands it on; `decodes` is whether the
      image decoder reads its metadata. */
  datatype UploadFile = UploadFile(originalname: string, mimetype: string, size: nat, decodes: bool)

  /** An error passed to the error handler. */
  datatype Failure =
    | MulterError(code: string, message: string)
    | PlainError(message: string)

  /** A JSON error reply, a written image with its stored name, or a file
      sent back. */
  datatype Reply =
    | Error(status: nat, code: string)
    | Written(filename: string)
    | Sent(path: string)

  const FILE_TYPE_MESSAGE := "Invalid file type. Only JPG, PNG, WEBP allowed."

  /** What multer's own limit raises for a part over `fileSize`. */
  const SIZE_ERROR := MulterError("LIMIT_FILE_SIZE", "File too large")

  /** The route handler after multer: the checks in order, then the write
      (`writeOk` is whether it succeeded). */
  function UploadHandler(file: Option<UploadFile>, game: Option<GameMeta>, writeOk: bool): Reply {
    if file.None? then Error(400, "NO_FILE")
    else if game.None? then Error(404, "NOT_FOUND")
    else if !file.value.decodes then Error(400, "INVALID_IMAGE")
    else if !writeOk then Error(500, "UPLOAD_ERROR")
    else Written(Sanitize(StoredName(game.value, file.value.originalname)))
  }

  /** `POST /api/games/:id/upload`: multer's filter and size limit, then the
      handler; a failure in multer goes to the error handler `onError`. */
  function UploadRequest(file: Option<UploadFile>, game: Option<GameMeta>, writeOk: bool,
                         onError: Failure -> Reply): Reply {
    if file.Some? && !Accepts(file.value.originalname, file.value.mimetype) then onError(PlainError(FILE_TYPE_MESSAGE))
    else if file.Some? && file.value.size > MAX_FILE_SIZE then onError(SIZE_ERROR)
    else UploadHandler(file, game, writeOk)
  }

  /** The filter's message is recognised by the handler; multer's size
      message is not. */
  lemma Messages()
    ensures Contains(FILE_TYPE_MESSAGE, "Invalid file type")
    ensures !Contains(SIZE_ERROR.message, "Invalid file type")
  {
    assert OccursAt(FILE_TYPE_MESSAGE, "Invalid file type", 0);
  }

  /** How the handler as written answers the filter's rejection and multer's
      size error: the size error falls through to 500 INTERNAL_ERROR. */
  lemma HandlerAnswers()
    ensures HandleErrorAsWritten(PlainError(FILE_TYPE_MESSAGE)) == Error(400, "INVALID_FILE_TYPE")
    ensures HandleErrorAsWritten(SIZE_ERROR) == Error(500, "INTERNAL_ERROR")
  {
    Messages();
    assert SIZE_ERROR.code == "LIMIT_FILE_SIZE";
  }

  /** An image is written iff every check passes, under the sanitised stored
      name; the first failing check decides the reply. */
  lemma UploadWrittenIff(file: Option<UploadFile>, game: Option<GameMeta>, writeOk: bool)
    ensures UploadRequest(file, game, writeOk, HandleErrorAsWritten).Written? <==>
      file.Some? && Accepts(file.value.originalname, file.value.mimetype) && file.value.size <= MAX_FILE_SIZE
      && game.Some? && file.value.decodes && writeOk
    ensures UploadRequest(file, game, writeOk, HandleErrorAsWritten).Written? ==>
      UploadRequest(file, game, writeOk, HandleErrorAsWritten).filename == Sanitize(StoredName(game.value, file.value.originalname))
    ensures file.None? ==> UploadRequest(file, game, writeOk, HandleErrorAsWritten) == Error(400, "NO_FILE")
    ensures file.Some? && !Accepts(file.value.originalname, file.value.mimetype) ==>
      UploadRequest(file, game, writeOk, HandleErrorAsWritten) == Error(400, "INVALID_FILE_TYPE")
    ensures file.Some? && Accepts(file.value.originalname, file.value.mimetype) && file.value.size > MAX_FILE_SIZE ==>
      UploadRequest(file, game, writeOk, HandleErrorAsWritten) == Error(500, "INTERNAL_ERROR")
    ensures (file.Some? && Accepts(file.value.originalname, file.value.mimetype) && file.value.size <= MAX_FILE_SIZE
      && game.None?) ==> UploadRequest(file, game, writeOk, HandleErrorAsWritten) == Error(404, "NOT_FOUND")
  {
    HandlerAnswers();
    if file.Some? {
      var f := file.value;
      if !Accepts(f.originalname, f.mimetype) {
        assert UploadRequest(file, game, writeOk, HandleErrorAsWritten) == Error(400, "INVALID_FILE_TYPE");
      } else if f.size > MAX_FILE_SIZE {
        assert UploadRequest(file, game, writeOk, HandleErrorAsWritten) == Error(500, "INTERNAL_ERROR");
      } else {
        assert UploadRequest(file, game, writeOk, HandleErrorAsWritten) == UploadHandler(file, game, writeOk);
      }
    }
  }

  /** Once multer lets the file through and the game is known, an image the
      decoder rejects gets 400 INVALID_IMAGE and a failed write 500
      UPLOAD_ERROR; nothing is written in either case. */
  lemma UploadLaterChecks(file: UploadFile, game: GameMeta, writeOk: bool)
    requires Accepts(file.originalname, file.mimetype) && file.size <= MAX_FILE_SIZE
    ensures !file.decodes ==> UploadRequest(Some(file), Some(game), writeOk, HandleErrorAsWritten) == Error(400, "INVALID_IMAGE")
    ensures file.decodes && !writeOk ==>
      UploadRequest(Some(file), Some(game), writeOk, HandleErrorAsWritten) == Error(500, "UPLOAD_ERROR")
  {
  }

  // ----------------------------------------------------------- error handler

  /** The error handler as written: it tests the multer code 'FILE_TOO_LARGE'. */
  function HandleErrorAsWritten(err: Failure): Reply {
    if err.MulterError? && err.code == "FILE_TOO_LARGE" then Error(400, "FILE_TOO_LARGE")
    else if err.message != "" && Contains(err.message, "Invalid file type") then Error(400, "INVALID_FILE_TYPE")
    else Error(500, "INTERNAL_ERROR")
  }

  /** The codes multer's errors carry. */
  const MULTER_CODES: seq<string> := [
    "LIMIT_PART_COUNT", "LIMIT_FILE_SIZE", "LIMIT_FILE_COUNT", "LIMIT_FIELD_KEY",
    "LIMIT_FIELD_VALUE", "LIMIT_FIELD_COUNT", "LIMIT_UNEXPECTED_FILE", "MISSING_FIELD_NAME"]

  /** As written, an oversized upload is answered 500 INTERNAL_ERROR, and the
      FILE_TOO_LARGE branch is taken by no error multer raises. */
  lemma OversizeIsInternalError()
    ensures HandleErrorAsWritten(SIZE_ERROR) == Error(500, "INTERNAL_ERROR")
    ensures forall k :: 0 <= k < |MULTER_CODES| ==>
      forall m :: HandleErrorAsWritten(MulterError(MULTER_CODES[k], m)) != Error(400, "FILE_TOO_LARGE")
  {
    Messages();
  }

  /** The error handler with multer's code for the size limit. */
  function HandleError(err: Failure): Reply {
    if err.MulterError? && err.code == "LIMIT_FILE_SIZE" then Error(400, "FILE_TOO_LARGE")
    else if err.message != "" && Contains(err.message, "Invalid file type") then Error(400, "INVALID_FILE_TYPE")
    else Error(500, "INTERNAL_ERROR")
  }

  /** An oversized accepted upload gets 400 FILE_TOO_LARGE; on every other
      error the handler answers as written. */
  lemma HandleErrorSize(file: UploadFile, game: Option<GameMeta>, writeOk: bool, err: Failure)
    requires Accepts(file.originalname, file.mimetype) && file.size > MAX_FILE_SIZE
    ensures UploadRequest(Some(file), game, writeOk, HandleError) == Error(400, "FILE_TOO_LARGE")
    ensures !(err.MulterError? && (err.code == "LIMIT_FILE_SIZE" || err.code == "FILE_TOO_LARGE")) ==>
      HandleError(err) == HandleErrorAsWritten(err)
  {
    assert SIZE_ERROR.code == "LIMIT_FILE_SIZE";
  }

  // ------------------------------------------------------------- image route

  /** `GET /api/images/:filename`. `decoded` is the URI-decoded parameter
      (`None` when decoding throws), `join` and `normalize` are Node's path
      functions, `onDisk` the file system's answer. The file sent is the
      joined path, not the normalised one. */
  function Serve(imagesDir: string, decoded: Option<string>, join: (string, string) -> string,
                 normalize: string -> string, onDisk: string -> bool): (r: Reply)
    ensures r.Sent? || r == Error(500, "SERVE_ERROR") || r == Error(403, "ACCESS_DENIED") || r == Error(404, "NOT_FOUND")
  {
    if decoded.None? then Error(500, "SERVE_ERROR")
    else
      var filepath := join(imagesDir, decoded.value);
      if !StartsWith(normalize(filepath), imagesDir) then Error(403, "ACCESS_DENIED")
      else if !onDisk(filepath) then Error(404, "NOT_FOUND")
      else Sent(filepath)
  }

  /** A file is sent iff the name decodes, the normalised path starts with the
      images directory and the joined path exists; the guard is checked before
      the file system is consulted. */
  lemma ServeIff(imagesDir: string, decoded: Option<string>, join: (string, string) -> string,
                 normalize: string -> string, onDisk: string -> bool)
    ensures var r := Serve(imagesDir, decoded, join, normalize, onDisk);
      r.Sent? <==> decoded.Some? && StartsWith(normalize(join(imagesDir, decoded.value)), imagesDir)
                   && onDisk(join(imagesDir, decoded.value))
    ensures var r := Serve(imagesDir, decoded, join, normalize, onDisk);
      r.Sent? ==> r.path == join(imagesDir, decoded.value)
    ensures var r := Serve(imagesDir, decoded, join, normalize, onDisk);
      decoded.Some? && !StartsWith(normalize(join(imagesDir, decoded.value)), imagesDir) ==>
        r == Error(403, "ACCESS_DENIED")
    ensures var r := Serve(imagesDir, decoded, join, normalize, onDisk);
      (decoded.Some? && StartsWith(normalize(join(imagesDir, decoded.value)), imagesDir)
       && !onDisk(join(imagesDir, decoded.value))) ==> r == Error(404, "NOT_FOUND")
  {
  }

  /** The guard compares text, not path components: a normalised path in a
      sibling directory whose name extends the images directory's passes it. */
  lemma GuardAdmitsSibling(imagesDir: string, name: string, join: (string, string) -> string,
                           normalize: string -> string, onDisk: string -> bool)
    requires normalize(join(imagesDir, name)) == imagesDir + "-old/" + name
    requires onDisk(join(imagesDir, name))
    ensures Serve(imagesDir, Some(name), join, normalize, onDisk) == Sent(join(imagesDir, name))
  {
    assert StartsWith(imagesDir + "-old/" + name, imagesDir) by {
      assert (imagesDir + "-old/" + name)[..|imagesDir|] == imagesDir;
    }
  }
}
