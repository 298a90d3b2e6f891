/**
 Result assembly of the face-comparison endpoint. Decoding an image and
 extracting face encodings, and deciding whether two encodings show the
 same person, belong to the face-recognition library; here they are
 parameters: `encode` stands for loading an image and listing the
 encodings of the faces found in it, in the library's order, and
 `matches(known, unknown)` for the library's single-pair match decision.
 */
module Detection {

  /** Raw bytes of an uploaded file. */
  type Bytes = seq<bv8>

  /** The two booleans the endpoint reports. */
  datatype FaceReport = FaceReport(facesFound: bool, isSamePerson: bool)

  /** Keys of the JSON object the endpoint returns. */
  const FacesFoundKey: string := "faces_found_in_images"
  const SamePersonKey: string := "is_same_person"

  /** A face counts as found only when both images hold at least one face;
      "same person" is then the match decision on the first face of the
      known (first) image against the first face of the unknown (second)
      image, and is false whenever no face was found. */
  function AssembleReport<E>(known: seq<E>, unknown: seq<E>, matches: (E, E) -> bool): (r: FaceReport)
    ensures r.facesFound <==> |known| > 0 && |unknown| > 0
    ensures r.isSamePerson ==> r.facesFound
    ensures r.facesFound ==> (r.isSamePerson <==> matches(known[0], unknown[0]))
  {
    var faceFound := |unknown| > 0 && |known| > 0;
    var isSame := faceFound && matches(known[0], unknown[0]);
    FaceReport(faceFound, isSame)
  }

  /** `detect_faces_in_image`: encodings of the first stream are the known
      faces, those of the second stream the unknown ones. */
  function DetectFacesInImage<E>(stream1: Bytes, stream2: Bytes, encode: Bytes -> seq<E>,
                                 matches: (E, E) -> bool): (r: FaceReport)
    ensures r.facesFound <==> |encode(stream1)| > 0 && |encode(stream2)| > 0
    ensures r.isSamePerson <==> r.facesFound && matches(encode(stream1)[0], encode(stream2)[0])
  {
    AssembleReport(encode(stream1), encode(stream2), matches)
  }

  /** Faces after the first in either image are never consulted. */
  lemma OnlyFirstFacesConsulted<E>(known: seq<E>, unknown: seq<E>, moreKnown: seq<E>,
                                   moreUnknown: seq<E>, matches: (E, E) -> bool)
    requires |known| > 0 && |unknown| > 0
    ensures AssembleReport(known + moreKnown, unknown + moreUnknown, matches)
         == AssembleReport(known[..1], unknown[..1], matches)
  {
  }

  /** The match decision is consulted at one pair only: two decisions that
      agree on the two first faces give the same report. */
  lemma OnlyFirstPairMatched<E>(known: seq<E>, unknown: seq<E>, m1: (E, E) -> bool, m2: (E, E) -> bool)
    requires |known| > 0 && |unknown| > 0 ==> m1(known[0], unknown[0]) == m2(known[0], unknown[0])
    ensures AssembleReport(known, unknown, m1) == AssembleReport(known, unknown, m2)
  {
  }

  /** The match verdict is asked about the known face first and the unknown
      face second: with a verdict that holds for (true, false) but not for
      (false, true), a known face `true` and an unknown face `false` are the
      same person, and with the images the other way round they are not. */
  lemma MatchIsAskedKnownThenUnknown()
    ensures AssembleReport([true], [false], (a: bool, b: bool) => a && !b) == FaceReport(true, true)
    ensures AssembleReport([false], [true], (a: bool, b: bool) => a && !b) == FaceReport(true, false)
  {
  }

  /** Serialising the report: exactly the two keys, carrying the two booleans. */
  function ToJson(r: FaceReport): (obj: map<string, bool>)
    ensures obj.Keys == {FacesFoundKey, SamePersonKey}
    ensures obj[FacesFoundKey] == r.facesFound && obj[SamePersonKey] == r.isSamePerson
  {
    map[FacesFoundKey := r.facesFound, SamePersonKey := r.isSamePerson]
  }

  /** The JSON object loses nothing: different reports serialise differently. */
  lemma JsonDeterminesReport(r1: FaceReport, r2: FaceReport)
    requires ToJson(r1) == ToJson(r2)
    ensures r1 == r2
  {
  }

  /** When either image yields no face, both reported booleans are false. */
  lemma NoFaceSerialisesFalse<E>(known: seq<E>, unknown: seq<E>, matches: (E, E) -> bool)
    requires |known| == 0 || |unknown| == 0
    ensures ToJson(AssembleReport(known, unknown, matches))
         == map[FacesFoundKey := false, SamePersonKey := false]
  {
  }
}
