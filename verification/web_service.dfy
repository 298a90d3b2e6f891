/**
 The upload endpoint of the face-comparison web service: one route serving
 GET and POST. A request is reduced to what the handler looks at: its
 method, its own URL and its named file parts.
 */
module WebService {
  import opened Extensions
  import opened Detection

  /** One uploaded file part: the client-supplied filename and its bytes. */
  datatype FilePart = FilePart(filename: string, stream: Bytes)

  /** An incoming request: method name as sent ("GET", "POST", ...), the
      URL it was sent to, and the file parts keyed by form-field name. */
  datatype Request = Request(httpMethod: string, url: string, files: map<string, FilePart>)

  /** What the handler decides: serve the upload form, redirect to the
      given location, or compare the two given parts. */
  datatype Outcome = Form | Redirect(location: string) | Compare(first: FilePart, second: FilePart)

  /** What reaches the client: the HTML form, a redirect, or a JSON object. */
  datatype Response = FormPage | Found(location: string) | Json(body: map<string, bool>)

  /** Form-field names of the two uploads. */
  const File1Key: string := "file_1"
  const File2Key: string := "file_2"

  /** Both parts are present and both carry a non-empty filename. */
  ghost predicate BothPartsNamed(req: Request) {
    File1Key in req.files && File2Key in req.files
    && req.files[File1Key].filename != "" && req.files[File2Key].filename != ""
  }

  /** Decision logic of `upload_image`. A comparison is only ever reached by
      a POST whose two parts are present with allowed filenames, and it is
      handed those two parts in field order; a redirect only answers a POST
      and always points back at the request's own URL; anything other than
      a POST gets the form. */
  function UploadImage(req: Request): (o: Outcome)
    ensures o.Compare? ==>
      && req.httpMethod == "POST" && File1Key in req.files && File2Key in req.files
      && o.first == req.files[File1Key] && o.second == req.files[File2Key]
      && AllowedFile(o.first.filename) && AllowedFile(o.second.filename)
    ensures o.Redirect? ==> req.httpMethod == "POST" && o.location == req.url
    ensures req.httpMethod != "POST" ==> o == Form
  {
    if req.httpMethod == "POST" then
      if File1Key !in req.files || File2Key !in req.files then
        Redirect(req.url)
      else
        var file1 := req.files[File1Key];
        var file2 := req.files[File2Key];
        if file1.filename == "" || file2.filename == "" then
          Redirect(req.url)
        else if AllowedFile(file1.filename) && AllowedFile(file2.filename) then
          Compare(file1, file2)
        else
          Form
    else
      Form
  }

  /** A redirect happens exactly for a POST that lacks a part or has an
      unnamed one. */
  lemma RedirectExactlyWhenPartMissingOrUnnamed(req: Request)
    ensures UploadImage(req).Redirect? <==> req.httpMethod == "POST" && !BothPartsNamed(req)
  {
  }

  /** A comparison happens exactly for a POST with two named parts whose
      filenames both pass the allow-list. */
  lemma CompareExactlyWhenBothAllowed(req: Request)
    ensures UploadImage(req).Compare? <==>
      req.httpMethod == "POST" && BothPartsNamed(req)
      && AllowedFile(req.files[File1Key].filename) && AllowedFile(req.files[File2Key].filename)
  {
  }

  /** A POST with two named parts of which one has a disallowed extension
      falls through to the form; it is not redirected. */
  lemma DisallowedExtensionShowsForm(req: Request)
    requires req.httpMethod == "POST" && BothPartsNamed(req)
    requires !AllowedFile(req.files[File1Key].filename) || !AllowedFile(req.files[File2Key].filename)
    ensures UploadImage(req) == Form
  {
  }

  /** The whole endpoint: the decision, then for a comparison the face
      report of the two streams, serialised as JSON. */
  function Respond<E>(req: Request, encode: Bytes -> seq<E>, matches: (E, E) -> bool): (resp: Response)
    ensures resp.Json? <==> UploadImage(req).Compare?
    ensures resp.Found? <==> UploadImage(req).Redirect?
    ensures resp.Found? ==> resp.location == req.url
    ensures resp.Json? ==> resp.body.Keys == {FacesFoundKey, SamePersonKey}
    ensures resp.Json? ==>
      (resp.body[FacesFoundKey] <==>
         |encode(req.files[File1Key].stream)| > 0 && |encode(req.files[File2Key].stream)| > 0)
    ensures resp.Json? ==>
      (resp.body[SamePersonKey] <==>
         resp.body[FacesFoundKey]
         && matches(encode(req.files[File1Key].stream)[0], encode(req.files[File2Key].stream)[0]))
  {
    match UploadImage(req)
    case Form => FormPage
    case Redirect(location) => Found(location)
    case Compare(first, second) => Json(ToJson(DetectFacesInImage(first.stream, second.stream, encode, matches)))
  }

  /** A POST without a second part is redirected and never answered with JSON. */
  lemma MissingSecondPartRedirects<E>(req: Request, encode: Bytes -> seq<E>, matches: (E, E) -> bool)
    requires req.httpMethod == "POST" && File2Key !in req.files
    ensures Respond(req, encode, matches) == Found(req.url)
  {
  }

  // In the worked cases below each filename is written as stem, ".", and
  // extension, the extension kept as a literal of its own, so that the
  // allow-list lemmas about `head + "." + ext` apply to it directly.

  /** Worked case: a POST of two .jpg files, as in the documented curl
      request with obama1.jpg and obama2.jpg, reaches the comparison with
      the two parts in field order. */
  lemma JpegPairIsCompared(req: Request, stem1: string, stem2: string)
    requires req.httpMethod == "POST" && File1Key in req.files && File2Key in req.files
    requires req.files[File1Key].filename == stem1 + "." + "jpg"
    requires req.files[File2Key].filename == stem2 + "." + "jpg"
    ensures UploadImage(req) == Compare(req.files[File1Key], req.files[File2Key])
  {
    ImageSuffixesAccepted(stem1);
    ImageSuffixesAccepted(stem2);
  }

  /** Worked case: a POST of a .png and a .bmp file gets the form back, not
      a redirect. */
  lemma BitmapGetsForm(req: Request, stem1: string, stem2: string)
    requires req.httpMethod == "POST" && File1Key in req.files && File2Key in req.files
    requires req.files[File1Key].filename == stem1 + "." + "png"
    requires req.files[File2Key].filename == stem2 + "." + "bmp"
    ensures UploadImage(req) == Form
  {
    OtherSuffixesRejected(stem2);
  }
}
