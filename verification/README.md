# Face-comparison upload endpoint, modelled in Dafny

The face_recognition repository ships a small Flask web service
(`examples/web_service_example.py`). A client POSTs two images as the
multipart fields `file_1` and `file_2`. The service checks their filenames
against an allow-list of image extensions. It then asks the
face-recognition library whether each image holds a face, and whether the
first face of each image belongs to the same person. This project models
the three pieces of that file that are plain logic:

- `allowed_file` and `ALLOWED_EXTENSIONS` (module `Extensions`, with the
  string operations it needs in module `Strings`). A name is accepted when it
  contains a '.', and the text after its last '.', lower-cased, is one of
  png, jpg, jpeg or gif.
- The branching of `upload_image` (module `WebService`). A request becomes one
  of three outcomes: `Form` (serve the upload form), `Redirect` (back to
  the request's own URL) or `Compare` (hand the two parts on). `Respond`
  composes this decision with the result assembly into the response the
  client sees.
- The result assembly of `detect_faces_in_image` (module `Detection`): two
  booleans computed from the two lists of face encodings, and the JSON
  object that carries them.

The face-recognition library is not part of this model. Loading an image
and listing its face encodings is the parameter `encode: Bytes -> seq<E>`.
The library's verdict on whether one known encoding matches one unknown
encoding is the parameter `matches: (E, E) -> bool`. Every lemma about
them holds for every choice of the two.

Two behaviours worth stating outright:

- A POST whose two parts are present and named, but whose extension is not
  allowed, is not redirected. The `if` on line 51 simply fails, and control
  falls through to the form on lines 56-67, as the comment on line 57 says
  (`DisallowedExtensionShowsForm`). Only a missing part or an empty
  filename redirects.
- The JSON key is `faces_found_in_images` (line 92). The header comment's
  sample output on line 10 shows `face_found_in_image`; the model follows
  the code. `ToJson` states the key set exactly.

## Model

| member | source | states |
|---|---|---|
| Strings.LowerChar | examples/web_service_example.py:30 | ASCII-only per-character lower-casing: no ASCII capital survives, a capital becomes its small letter (32 code points up), every other character is unchanged, and `.` neither appears nor disappears |
| Strings.Lower | examples/web_service_example.py:30 | lower-casing keeps the length and maps each character on its own |
| Strings.LastIndexOf | examples/web_service_example.py:30 | finds the position of the last '.': None exactly when there is no '.', otherwise a '.' with no '.' after it |
| Strings.LastIndexOfUnique | examples/web_service_example.py:30 | any '.' with no '.' after it is the one that is found, so the split point is unique |
| Strings.RSplitOnce | examples/web_service_example.py:30 | `rsplit('.', 1)` gives one piece (the whole name) exactly when there is no '.'; otherwise two pieces that join back with '.' into the name, the second free of '.' |
| Strings.RSplitOnceOfJoin | examples/web_service_example.py:30 | the converse round trip: splitting `head + "." + tail` with a dot-free tail gives exactly `[head, tail]` |
| Strings.LastDotIgnoresCase | examples/web_service_example.py:30 | lower-casing a name does not move its last `.` |
| Extensions.AllowedExtensionsListed | examples/web_service_example.py:23 | the allow-set holds exactly `png`, `jpg`, `jpeg` and `gif` |
| Extensions.AllowedExtensionIsLowerCase | examples/web_service_example.py:23 | every allow-set entry is already lower case and holds no `.` |
| Extensions.AllowedExtensionReachable | examples/web_service_example.py:23-30 | no allow-set entry is dead: for every entry `e` and every stem, `stem.e` is accepted |
| Extensions.AllowedFile | examples/web_service_example.py:28-30 | an accepted name contains a '.' (so a name with no '.' is always rejected) and is at least four characters long |
| Extensions.AllowedFileMeansAllowedExtension | examples/web_service_example.py:23-30 | accepted exactly when some '.' is followed by dot-free text that lower-cases into {png, jpg, jpeg, gif}; both directions |
| Extensions.ExtensionIsTextAfterLastDot | examples/web_service_example.py:29-30 | for dot-free `ext`, `head.ext` is accepted exactly when lower(`ext`) is an allowed extension, whatever `head` is |
| Extensions.AllowedFileAtLastDot | examples/web_service_example.py:29-30 | once the last `.` is at position i, the verdict is whether the lower-cased text after position i is allowed |
| Extensions.AllowedFileIgnoresCase | examples/web_service_example.py:30 | two names with the same lower-case form get the same verdict |
| Extensions.ImageSuffixesAccepted | examples/web_service_example.py:29-30 | whatever the stem (dotted as in `a.tar`, or empty as in `.png`), the name ending `.png`, `.jpg` or `.JPG` is accepted |
| Extensions.OtherSuffixesRejected | examples/web_service_example.py:29-30 | whatever the stem (`x.png` included), the name ending `.txt`, ending in a bare `.` (as `photo.png.`), or ending `.bmp` is rejected |
| Detection.AssembleReport | examples/web_service_example.py:80-88 | faces found exactly when both encoding lists are non-empty; same person implies faces found; with faces, same person is the match verdict on the first known and the first unknown face |
| Detection.DetectFacesInImage | examples/web_service_example.py:70-88 | the first stream's encodings are the known faces and the second's the unknown ones; both booleans follow from them |
| Detection.OnlyFirstFacesConsulted | examples/web_service_example.py:83-86 | extra faces after the first in either image never change the report |
| Detection.OnlyFirstPairMatched | examples/web_service_example.py:86-88 | two match verdicts that agree on the first pair give the same report |
| Detection.MatchIsAskedKnownThenUnknown | examples/web_service_example.py:86 | the match verdict gets the known (first) face as its first argument and the unknown (second) face as its second: with an asymmetric verdict, the two image orders give different reports |
| Detection.ToJson | examples/web_service_example.py:91-95 | the JSON object has exactly the keys `faces_found_in_images` and `is_same_person`, holding the two booleans |
| Detection.JsonDeterminesReport | examples/web_service_example.py:91-95 | different reports give different JSON objects |
| Detection.NoFaceSerialisesFalse | examples/web_service_example.py:80-95 | when either image yields no face, the JSON object holds false under both keys |
| WebService.UploadImage | examples/web_service_example.py:38-58 | a comparison needs a POST with both parts present and both filenames allowed, and gets those parts in field order; a redirect answers only a POST and targets the request URL; any non-POST gets the form |
| WebService.RedirectExactlyWhenPartMissingOrUnnamed | examples/web_service_example.py:40-49 | redirect exactly for a POST missing `file_1` or `file_2` or with an empty filename |
| WebService.CompareExactlyWhenBothAllowed | examples/web_service_example.py:51-54 | comparison exactly for a POST with both parts named and both filenames allowed |
| WebService.DisallowedExtensionShowsForm | examples/web_service_example.py:51-58 | a POST with both parts named but a disallowed filename gets the form, not a redirect |
| WebService.Respond | examples/web_service_example.py:34-95 | JSON exactly when the decision is a comparison, and a redirect exactly when the decision is a redirect (to the request URL); the JSON has the two keys, faces found iff both streams yield encodings; same person iff faces found and the match verdict holds for the first face of `file_1` against the first face of `file_2` |
| WebService.MissingSecondPartRedirects | examples/web_service_example.py:40-42 | a POST without `file_2` is redirected and never answered with JSON |
| WebService.JpegPairIsCompared | examples/web_service_example.py:44-54 | a POST of two `.jpg` files (as in the documented `obama1.jpg`/`obama2.jpg` request) reaches the comparison with its two parts in field order |
| WebService.BitmapGetsForm | examples/web_service_example.py:51-58 | a POST of a `.png` and a `.bmp` file gets the form, not a redirect |

## Left out

- Flask routing, `request`, `redirect`, `jsonify` and HTTP status codes are framework code. A request is reduced to its method name, URL and file-part map. A response is reduced to `FormPage`, `Found(location)` or `Json(body)`.
- The HTML of the upload form (lines 58-67) is not modelled. It is the opaque `Form` outcome.
- `face_recognition.load_image_file`, `face_encodings` and `compare_faces` are library calls whose code is not part of this model. Their match threshold is floating point. They become the `encode` and `matches` parameters, and `matches(a, b)` stands for `compare_faces([a], b)[0]`. How the library orders faces is left open. The two parameters are total functions, so the model assumes the library returns for every input: in the source, an exception from `load_image_file` or `face_encodings` (lines 72, 76) on unreadable bytes propagates out of `detect_faces_in_image` and the client gets an error response instead of JSON. That error path is not modelled.
- The truthiness tests `file_1 and` / `file_2 and` on line 51 depend on the framework's file-storage class, which is not part of this model. A part counts as present whenever its key is in the file map.
- Strings.LowerChar, Strings.Lower: lower-case ASCII letters only, not full Unicode `str.lower()`: a non-ASCII capital such as `É` is left unchanged where Python lowers it, and the word-final form of `Σ` is not modelled. For the allow-set {png, jpg, jpeg, gif} this should not change any verdict, because the few non-ASCII characters whose lower-case form is ASCII (such as the Kelvin sign, which becomes `k`) do not produce any of these letters. The model does not prove this.
- The `print` diagnostics and the `app.run` host, port and debug configuration (line 98) are console I/O and deployment.
- Repeating a request with the same images gives the same result by construction. Every operation is a function of its inputs, so no separate lemma is needed.
