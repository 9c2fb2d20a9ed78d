/**
 * The blur, greyscale and resize handlers: validate the parameters, then
 * transform the uploaded temporary file, write the result under a fresh
 * name, record an `image` row for the caller and delete the temporary
 * file. Also the two listing handlers.
 */
module ImageController {
  import opened Wrappers
  import opened JsString
  import opened NodePath
  import opened Entities
  import opened Http
  import opened ImageStore

  const NoImageUploaded := "No image uploaded."
  const InvalidBlur := "Invalid blur value. Must be a number between 0 and 100."
  const InvalidSize := "w and h are required, they cannot be 0"
  const ImageSaved := "Image saved successfully"
  const MaxBlur := 100
  const UrlPrefix := "http://localhost:8000/uploads/"

  /** multer's `req.file`: where the upload was staged and the client's file name. */
  datatype UploadedFile = UploadedFile(path: string, originalName: string)

  /** The transform requested, with its raw form fields (`None` when absent). */
  datatype Operation =
    | Blur(blur: Option<string>)
    | Greyscale
    | Resize(w: Option<string>, h: Option<string>)

  /**
   * Which step of the `try` block throws, if any: reading or transforming
   * the image, writing the output file, or saving the row.
   */
  datatype ProcessFault = NoFault | ReadThrows | WriteThrows | SaveThrows

  /** Staged uploads, written output files (by name) and the `image` rows. */
  datatype Store = Store(tempFiles: set<string>, uploads: set<string>, images: seq<Image>)

  // ------------------------------------------------------------- validation

  /** The 400 message for the operation's parameters, or `None` when they are acceptable. */
  function Rejection(op: Operation): Option<string> {
    match op
    case Blur(field) =>
      var v := ParseIntField(field);
      if v.None? || v.value <= 0 || v.value > MaxBlur then Some(InvalidBlur) else None
    case Greyscale => None
    case Resize(wField, hField) =>
      var w, h := ParseIntField(wField), ParseIntField(hField);
      if w.None? || h.None? || w.value <= 0 || h.value <= 0 then Some(InvalidSize) else None
  }

  /**
   * A blur written as a decimal number (possibly followed by text that
   * `parseInt` ignores, as in "50px") is accepted exactly from 1 to 100.
   */
  lemma BlurAcceptsOneToHundred(n: nat, rest: string)
    requires rest == [] || (!IsDecimalDigit(rest[0]) && (n == 0 ==> rest[0] != 'x' && rest[0] != 'X'))
    ensures Rejection(Blur(Some(DecimalString(n) + rest))).None? <==> 1 <= n <= MaxBlur
  {
    ParseIntDecimal(n, rest);
  }

  /** A negative or absent blur is rejected, and so is one that is not a number. */
  lemma BlurRejects(n: nat, s: string)
    requires s != [] && !IsWhiteSpace(s[0]) && !IsDecimalDigit(s[0]) && s[0] != '-' && s[0] != '+'
    ensures Rejection(Blur(Some("-" + DecimalString(n)))) == Some(InvalidBlur)
    ensures Rejection(Blur(None)) == Some(InvalidBlur)
    ensures Rejection(Blur(Some(s))) == Some(InvalidBlur)
  {
    ParseIntNegativeDecimal(n, "");
    assert DecimalString(n) + "" == DecimalString(n);
    ParseIntNaN("undefined");
    ParseIntNaN(s);
  }

  /** Width and height written in decimal are accepted exactly when both are positive. */
  lemma ResizeAcceptsPositive(w: nat, h: nat)
    ensures Rejection(Resize(Some(DecimalString(w)), Some(DecimalString(h)))).None? <==> w > 0 && h > 0
    ensures Rejection(Resize(None, Some(DecimalString(h)))) == Some(InvalidSize)
    ensures Rejection(Resize(Some(DecimalString(w)), None)) == Some(InvalidSize)
  {
    ParseIntDecimal(w, "");
    ParseIntDecimal(h, "");
    assert DecimalString(w) + "" == DecimalString(w);
    assert DecimalString(h) + "" == DecimalString(h);
    ParseIntNaN("undefined");
  }

  // ---------------------------------------------------------- names and URLs

  /** `writeImageToDisk`'s file name: the fresh name and the original extension. */
  function OutputFileName(freshName: string, originalName: string): string {
    freshName + ExtName(originalName)
  }

  function ImageUrl(fileName: string): string {
    UrlPrefix + fileName
  }

  /** The stored file a URL of this server points at. */
  function FileNameOfUrl(url: string): (f: Option<string>)
    ensures f.Some? ==> ImageUrl(f.value) == url
  {
    if UrlPrefix <= url then Some(url[|UrlPrefix|..]) else None
  }

  lemma {:induction false} FileNameOfImageUrl(fileName: string)
    ensures FileNameOfUrl(ImageUrl(fileName)) == Some(fileName)
  {
    assert UrlPrefix <= UrlPrefix + fileName;
    assert (UrlPrefix + fileName)[|UrlPrefix|..] == fileName;
  }

  /** A version-4 UUID as `uuidv4` writes it. */
  predicate IsUuid(s: string) {
    && |s| == 36
    && forall i :: 0 <= i < 36 ==>
         if i == 8 || i == 13 || i == 18 || i == 23 then s[i] == '-'
         else ('0' <= s[i] <= '9') || ('a' <= s[i] <= 'f')
  }

  /** Under a UUID the output file keeps the upload's extension. */
  lemma OutputKeepsExtension(freshName: string, originalName: string)
    requires IsUuid(freshName)
    ensures ExtName(OutputFileName(freshName, originalName)) == ExtName(originalName)
  {
    assert '.' !in freshName && '/' !in freshName by {
      forall i | 0 <= i < |freshName| ensures freshName[i] != '.' && freshName[i] != '/' {
      }
    }
    ExtNameOfFreshName(freshName, originalName);
  }

  // ---------------------------------------------------------------- outcomes

  /** The `try` block once the parameters passed. */
  function Processed(st: Store, file: UploadedFile, caller: User, freshName: string, now: int, fault: ProcessFault): (Store, Response)
  {
    if fault == ReadThrows || fault == WriteThrows then (st, Response(500, Message(ServerError)))
    else
      var name := OutputFileName(freshName, file.originalName);
      var url := ImageUrl(name);
      if fault == SaveThrows then (st.(uploads := st.uploads + {name}), Response(500, Message(ServerError)))
      else
        var row := Image(|st.images| + 1, url, caller.id, now);
        (Store(st.tempFiles - {file.path}, st.uploads + {name}, st.images + [row]),
         Response(200, Saved(ImageSaved, url)))
  }

  /**
   * One call of `blur`, `greyScale` or `resize`. `freshName` is what
   * `uuidv4` returns and `now` the database's `CURRENT_TIMESTAMP`.
   */
  function TransformOutcome(st: Store, op: Operation, file: Option<UploadedFile>, caller: User,
                            freshName: string, now: int, fault: ProcessFault): (Store, Response)
  {
    if file.None? then (st, Response(400, Message(NoImageUploaded)))
    else match Rejection(op)
      case Some(msg) => (st.(tempFiles := st.tempFiles - {file.value.path}), Response(400, Message(msg)))
      case None => Processed(st, file.value, caller, freshName, now, fault)
  }

  /** Without an upload: 400 and nothing else happens. */
  lemma NoUploadChangesNothing(st: Store, op: Operation, caller: User, freshName: string, now: int, fault: ProcessFault)
    ensures TransformOutcome(st, op, None, caller, freshName, now, fault) == (st, Response(400, Message(NoImageUploaded)))
  {
  }

  /** Rejected parameters: the staged file is deleted, 400, and no row or output file is added. */
  lemma RejectionDeletesTempFile(st: Store, op: Operation, file: UploadedFile, caller: User,
                                 freshName: string, now: int, fault: ProcessFault)
    requires Rejection(op).Some?
    ensures var (st', res) := TransformOutcome(st, op, Some(file), caller, freshName, now, fault);
      && res == Response(400, Message(Rejection(op).value))
      && st'.tempFiles == st.tempFiles - {file.path}
      && st'.images == st.images && st'.uploads == st.uploads
  {
  }

  /**
   * 200 exactly when there is an upload, its parameters pass and nothing
   * throws. Then exactly one row (the output URL, owned by the caller) is
   * appended, the staged file is gone, the output file exists and the
   * answer carries the recorded URL.
   */
  lemma SuccessRecordsOneImage(st: Store, op: Operation, file: Option<UploadedFile>, caller: User,
                               freshName: string, now: int, fault: ProcessFault)
    ensures var (st', res) := TransformOutcome(st, op, file, caller, freshName, now, fault);
      res.status == 200 <==> file.Some? && Rejection(op).None? && fault == NoFault
    ensures var (st', res) := TransformOutcome(st, op, file, caller, freshName, now, fault);
      res.status == 200 ==>
        var url := ImageUrl(OutputFileName(freshName, file.value.originalName));
        && st'.images == st.images + [Image(|st.images| + 1, url, caller.id, now)]
        && res.body == Saved(ImageSaved, url)
        && file.value.path !in st'.tempFiles
        && st'.tempFiles == st.tempFiles - {file.value.path}
        && FileNameOfUrl(url).Some? && FileNameOfUrl(url).value in st'.uploads
  {
    if file.None? {
      NoUploadChangesNothing(st, op, caller, freshName, now, fault);
    } else if Rejection(op).Some? {
      RejectionDeletesTempFile(st, op, file.value, caller, freshName, now, fault);
    } else {
      assert TransformOutcome(st, op, file, caller, freshName, now, fault)
        == Processed(st, file.value, caller, freshName, now, fault);
      ProcessedSucceeds(st, file.value, caller, freshName, now, fault);
    }
  }

  /** The `try` block answers 200 exactly when nothing throws, and then records the image. */
  lemma ProcessedSucceeds(st: Store, file: UploadedFile, caller: User, freshName: string, now: int, fault: ProcessFault)
    ensures var (st', res) := Processed(st, file, caller, freshName, now, fault);
      && (res.status == 200 <==> fault == NoFault)
      && (res.status == 200 ==>
        var url := ImageUrl(OutputFileName(freshName, file.originalName));
        && st'.images == st.images + [Image(|st.images| + 1, url, caller.id, now)]
        && res.body == Saved(ImageSaved, url)
        && file.path !in st'.tempFiles
        && st'.tempFiles == st.tempFiles - {file.path}
        && FileNameOfUrl(url).Some? && FileNameOfUrl(url).value in st'.uploads)
  {
    FileNameOfImageUrl(OutputFileName(freshName, file.originalName));
  }

  /**
   * A throw after validation: 500 "Server error", the staged file stays,
   * no row is added; only a failed save leaves the written output file.
   */
  lemma FailureKeepsTempFile(st: Store, op: Operation, file: UploadedFile, caller: User,
                             freshName: string, now: int, fault: ProcessFault)
    requires Rejection(op).None? && fault != NoFault
    ensures var (st', res) := TransformOutcome(st, op, Some(file), caller, freshName, now, fault);
      && res == Response(500, Message(ServerError))
      && st'.tempFiles == st.tempFiles && st'.images == st.images
      && st'.uploads == (if fault == SaveThrows then st.uploads + {OutputFileName(freshName, file.originalName)} else st.uploads)
  {
    var out := Processed(st, file, caller, freshName, now, fault);
    assert TransformOutcome(st, op, Some(file), caller, freshName, now, fault) == out;
    if fault == SaveThrows {
      assert out == (st.(uploads := st.uploads + {OutputFileName(freshName, file.originalName)}), Response(500, Message(ServerError)));
    } else {
      assert out == (st, Response(500, Message(ServerError)));
    }
  }

  /** A call adds at most one row: the output URL, owned by the caller, with the next id. */
  lemma TransformAppendsAtMostOne(st: Store, op: Operation, file: Option<UploadedFile>, caller: User,
                                  freshName: string, now: int, fault: ProcessFault)
    ensures var images' := TransformOutcome(st, op, file, caller, freshName, now, fault).0.images;
      images' == st.images
      || (file.Some? && images' == st.images + [Image(|st.images| + 1,
            ImageUrl(OutputFileName(freshName, file.value.originalName)), caller.id, now)])
  {
    if file.None? {
      NoUploadChangesNothing(st, op, caller, freshName, now, fault);
    } else if Rejection(op).Some? {
      RejectionDeletesTempFile(st, op, file.value, caller, freshName, now, fault);
    } else {
      assert TransformOutcome(st, op, file, caller, freshName, now, fault)
        == Processed(st, file.value, caller, freshName, now, fault);
      ProcessedSucceeds(st, file.value, caller, freshName, now, fault);
      if fault != NoFault {
        FailureKeepsTempFile(st, op, file.value, caller, freshName, now, fault);
      }
    }
  }

  /** Auto-increment ids of the `image` table are kept by every call. */
  lemma TransformKeepsImageIds(st: Store, op: Operation, file: Option<UploadedFile>, caller: User,
                               freshName: string, now: int, fault: ProcessFault)
    requires DenseImageIds(st.images)
    ensures var images' := TransformOutcome(st, op, file, caller, freshName, now, fault).0.images;
      && |images'| <= |st.images| + 1 && st.images <= images'
      && DenseImageIds(images')
  {
    TransformAppendsAtMostOne(st, op, file, caller, freshName, now, fault);
    var images' := TransformOutcome(st, op, file, caller, freshName, now, fault).0.images;
    if images' != st.images {
      AppendKeepsImageIds(st.images, images'[|st.images|]);
      assert images' == st.images + [images'[|st.images|]];
    }
  }

  /** The recorded image is in the caller's listing and the global one right away. */
  lemma SavedImageIsListed(st: Store, op: Operation, file: Option<UploadedFile>, caller: User,
                           freshName: string, now: int, fault: ProcessFault)
    requires TransformOutcome(st, op, file, caller, freshName, now, fault).1.status == 200
    ensures var (st', res) := TransformOutcome(st, op, file, caller, freshName, now, fault);
      exists x :: x in ImagesOfUser(st'.images, caller.id) && x.url == res.body.url && x in AllImages(st'.images)
  {
    SuccessRecordsOneImage(st, op, file, caller, freshName, now, fault);
    var (st', res) := TransformOutcome(st, op, file, caller, freshName, now, fault);
    var x := st'.images[|st.images|];
    ImagesOfUserExact(st'.images, caller.id);
    ImagesOfUserWithinAll(st'.images, caller.id);
    assert x in st'.images;
  }

  // ---------------------------------------------------------------- handlers

  class ImageService {
    var tempFiles: set<string>
    var uploads: set<string>
    var images: seq<Image>

    /** The `image` table's ids are auto-increment: row k has id k + 1. */
    ghost predicate Valid()
      reads this
    {
      DenseImageIds(images)
    }

    constructor (tempFiles: set<string>, uploads: set<string>, images: seq<Image>)
      ensures State() == Store(tempFiles, uploads, images)
      ensures Valid() <==> DenseImageIds(images)
    {
      this.tempFiles := tempFiles;
      this.uploads := uploads;
      this.images := images;
    }

    /** A fresh server: nothing staged, nothing written, an empty `image` table. */
    constructor Empty()
      ensures State() == Store({}, {}, [])
      ensures Valid()
    {
      tempFiles := {};
      uploads := {};
      images := [];
    }

    function State(): Store
      reads this
    {
      Store(tempFiles, uploads, images)
    }

    method Blur(file: Option<UploadedFile>, blurField: Option<string>, caller: User,
                freshName: string, now: int, fault: ProcessFault) returns (res: Response)
      requires Valid()
      modifies this
      ensures (State(), res) == TransformOutcome(old(State()), Operation.Blur(blurField), file, caller, freshName, now, fault)
      ensures Valid()
    {
      var blurValue := ParseIntField(blurField);
      if file.None? {
        return Response(400, Message(NoImageUploaded));
      }
      var tempFilePath := file.value.path;
      if blurValue.None? || blurValue.value <= 0 || blurValue.value > MaxBlur {
        RemoveTempFile(tempFilePath);
        return Response(400, Message(InvalidBlur));
      }
      res := TransformAndSave(file.value, caller, freshName, now, fault);
    }

    method GreyScale(file: Option<UploadedFile>, caller: User,
                     freshName: string, now: int, fault: ProcessFault) returns (res: Response)
      requires Valid()
      modifies this
      ensures (State(), res) == TransformOutcome(old(State()), Operation.Greyscale, file, caller, freshName, now, fault)
      ensures Valid()
    {
      if file.None? {
        return Response(400, Message(NoImageUploaded));
      }
      res := TransformAndSave(file.value, caller, freshName, now, fault);
    }

    method Resize(file: Option<UploadedFile>, wField: Option<string>, hField: Option<string>, caller: User,
                  freshName: string, now: int, fault: ProcessFault) returns (res: Response)
      requires Valid()
      modifies this
      ensures (State(), res) == TransformOutcome(old(State()), Operation.Resize(wField, hField), file, caller, freshName, now, fault)
      ensures Valid()
    {
      var w := ParseIntField(wField);
      var h := ParseIntField(hField);
      if file.None? {
        return Response(400, Message(NoImageUploaded));
      }
      var tempFilePath := file.value.path;
      if w.None? || h.None? || w.value <= 0 || h.value <= 0 {
        RemoveTempFile(tempFilePath);
        return Response(400, Message(InvalidSize));
      }
      assert Rejection(Operation.Resize(wField, hField)).None?;
      res := TransformAndSave(file.value, caller, freshName, now, fault);
    }

    /** The shared `try` block: read and transform, write, save, clean up. */
    method TransformAndSave(file: UploadedFile, caller: User, freshName: string, now: int, fault: ProcessFault)
      returns (res: Response)
      requires Valid()
      modifies this
      ensures (State(), res) == Processed(old(State()), file, caller, freshName, now, fault)
      ensures Valid()
    {
      if fault == ReadThrows {
        return Response(500, Message(ServerError));
      }
      var imageUrl := WriteImageToDisk(file.originalName, freshName, fault == WriteThrows);
      if imageUrl.None? {
        return Response(500, Message(ServerError));
      }
      if fault == SaveThrows {
        return Response(500, Message(ServerError));
      }
      SaveImageUrlToDatabase(imageUrl.value, caller, now);
      RemoveTempFile(file.path);
      res := Response(200, Saved(ImageSaved, imageUrl.value));
    }

    /** `if (fs.existsSync(p)) fs.unlinkSync(p)`. */
    method RemoveTempFile(path: string)
      modifies this
      ensures tempFiles == old(tempFiles) - {path}
      ensures uploads == old(uploads) && images == old(images)
    {
      if path in tempFiles {
        tempFiles := tempFiles - {path};
      }
    }

    /** Writes the output under a fresh name and returns its URL; `None` when the write throws. */
    method WriteImageToDisk(originalName: string, freshName: string, writeThrows: bool) returns (url: Option<string>)
      modifies this
      ensures url == if writeThrows then None else Some(ImageUrl(OutputFileName(freshName, originalName)))
      ensures uploads == if writeThrows then old(uploads) else old(uploads) + {OutputFileName(freshName, originalName)}
      ensures tempFiles == old(tempFiles) && images == old(images)
    {
      var fileName := freshName + ExtName(originalName);
      if writeThrows {
        return None;
      }
      uploads := uploads + {fileName};
      url := Some(UrlPrefix + fileName);
    }

    /** `saveImageUrlToDatabase`: one row for the URL and the caller. */
    method SaveImageUrlToDatabase(url: string, caller: User, now: int)
      requires Valid()
      modifies this
      ensures images == old(images) + [Image(|old(images)| + 1, url, caller.id, now)]
      ensures tempFiles == old(tempFiles) && uploads == old(uploads)
      ensures Valid()
    {
      AppendKeepsImageIds(images, Image(|images| + 1, url, caller.id, now));
      images := images + [Image(|images| + 1, url, caller.id, now)];
    }

    /** `getImagesByUser`: the caller's images, newest first; the table is only read. */
    method GetImagesByUser(caller: User, queryThrows: bool) returns (res: Response)
      ensures queryThrows ==> res == Response(500, Message(ServerError))
      ensures !queryThrows ==> (res.status == 200 && res.body.Images?
        && NewestFirst(res.body.images)
        && (forall x :: multiset(res.body.images)[x] == if x.owner == caller.id then multiset(images)[x] else 0)
        && forall x :: x in res.body.images <==> x in images && x.owner == caller.id)
    {
      if queryThrows {
        return Response(500, Message(ServerError));
      }
      var found := ImagesOfUser(images, caller.id);
      ImagesOfUserExact(images, caller.id);
      res := Response(200, Images(found));
    }

    /** `getAllImages`: every image, newest first; the table is only read. */
    method GetAllImages(queryThrows: bool) returns (res: Response)
      ensures queryThrows ==> res == Response(500, Message(ServerError))
      ensures !queryThrows ==> (res.status == 200 && res.body.Images?
        && NewestFirst(res.body.images) && multiset(res.body.images) == multiset(images))
    {
      if queryThrows {
        return Response(500, Message(ServerError));
      }
      var found := AllImages(images);
      AllImagesExact(images);
      res := Response(200, Images(found));
    }
  }
}
