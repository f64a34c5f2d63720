/**
 * The `/predict` endpoint: admission of the upload by its declared content type, rejection of
 * an empty payload and of a payload that does not open as an image, the prediction, and the
 * optional echoed image and Grad-CAM entries of the JSON answer.
 *
 * Everything the handler calls but that is not modelled here (reading the upload, opening the
 * image, the classifier, the Grad-CAM capture and rendering, base64) is passed in as a function.
 */
module App {
  import opened Wrappers
  import opened Strings
  import opened ModelService

  newtype byte = x: int | 0 <= x < 256

  /** The keys of the endpoint's JSON objects; `Name` is the key as it is written on the wire. */
  datatype Key =
    | Error | Label | Probability | ImageDataUrl
    | CamThr | MaskAreaPct | Box224 | Input224DataUrl | CamHeatmapDataUrl | OverlayDataUrl | OverlayBoxDataUrl
  {
    function Name(): string {
      match this
      case Error => "error"
      case Label => "label"
      case Probability => "probability"
      case ImageDataUrl => "image_data_url"
      case CamThr => "cam_thr"
      case MaskAreaPct => "mask_area_pct"
      case Box224 => "box_224"
      case Input224DataUrl => "input_224_data_url"
      case CamHeatmapDataUrl => "cam_heatmap_data_url"
      case OverlayDataUrl => "overlay_data_url"
      case OverlayBoxDataUrl => "overlay_box_data_url"
    }
  }

  /** The JSON values that occur in the endpoint's answers. */
  datatype Value = Str(s: string) | Num(x: real) | Ints(xs: seq<int>) | Null

  /**
   * The `result` dictionary of a successful request: `label` and `probability` always,
   * `image_data_url` once it has been assigned, and the Grad-CAM entries once `result.update`
   * has merged them in.
   */
  datatype Result = Result(classLabel: string, probability: real, imageDataUrl: Option<string>, cam: Option<CamResult>)
  {
    /** The keys the dictionary holds. */
    function Keys(): set<Key> {
      {Label, Probability}
        + (if imageDataUrl.Some? then {ImageDataUrl} else {})
        + (if cam.Some? then CAM_KEYS else {})
    }
  }

  /**
   * The label and the probability are always present, `image_data_url` exactly when the image
   * is echoed, and the Grad-CAM keys exactly when the map is computed; no error key is ever there.
   */
  lemma ResultKeys(result: Result)
    ensures Label in result.Keys() && Probability in result.Keys()
    ensures ImageDataUrl in result.Keys() <==> result.imageDataUrl.Some?
    ensures CAM_KEYS <= result.Keys() <==> result.cam.Some?
    ensures result.cam.None? ==> result.Keys() !! CAM_KEYS
    ensures Error !in result.Keys()
  {
  }

  /**
   * An answer: a 400 answer `{"error": message}`, a 200 answer holding the result dictionary,
   * or an exception that escapes the handler (which the web framework turns into a 500 answer).
   */
  datatype Response = BadRequest(error: string) | Ok(result: Result) | Unhandled

  /**
   * What `Image.open` makes of the payload: an image; a refusal by one of the two exceptions the
   * handler catches (an unidentified image or an `OSError`); or any other exception, which
   * escapes the handler.
   */
  datatype Decoded<Image> = Opened(image: Image) | Refused | Raised

  /** The collaborators the handler calls, in the order they are called. */
  datatype Collaborator = FileRead | ImageOpen | Predictor | Base64 | GradCam

  const GENERIC_BINARY: string := "application/octet-stream"

  /** The table used when the declared content type is not an image type. */
  const FORMAT_TO_MIME: map<string, string> := map[
    "JPEG" := "image/jpeg",
    "JPG" := "image/jpeg",
    "PNG" := "image/png",
    "WEBP" := "image/webp",
    "BMP" := "image/bmp",
    "GIF" := "image/gif"
  ]

  /** The keys that the Grad-CAM step adds to the answer. */
  const CAM_KEYS: set<Key> := {
    CamThr, MaskAreaPct, Box224, Input224DataUrl, CamHeatmapDataUrl, OverlayDataUrl, OverlayBoxDataUrl
  }

  /** Python truthiness of an optional string: present and non-empty. */
  predicate Truthy(s: Option<string>) {
    s.Some? && s.value != ""
  }

  /** A declared content type of the form `image/...`. */
  predicate IsImageType(contentType: Option<string>) {
    Truthy(contentType) && StartsWith(contentType.value, "image/")
  }

  /**
   * The admission test on the declared content type: a missing or empty one passes, and so
   * does any `image/...` type and the generic binary type; everything else is refused.
   */
  predicate Admitted(contentType: Option<string>) {
    !(Truthy(contentType)
      && !(StartsWith(contentType.value, "image/") || contentType.value == GENERIC_BINARY))
  }

  /**
   * The admission rule spelled out: a missing content type, an empty one, any `image/...` type
   * and the generic binary type are admitted, and nothing else is.
   */
  lemma AdmissionRule(contentType: Option<string>)
    ensures Admitted(contentType) <==>
      || contentType.None? || contentType.value == ""
      || StartsWith(contentType.value, "image/") || contentType.value == GENERIC_BINARY
    ensures IsImageType(contentType) ==> Admitted(contentType)
  {
  }

  /** The media type of the echoed image. */
  function SelectMime(contentType: Option<string>, format: Option<string>): (mime: string)
    ensures IsImageType(contentType) ==> mime == contentType.value
    ensures !IsImageType(contentType) ==>
      var key := Upper(format.GetOr(""));
      && (key in FORMAT_TO_MIME ==> mime == FORMAT_TO_MIME[key])
      && (key in {"JPEG", "JPG"} ==> mime == "image/jpeg")
      && (key !in FORMAT_TO_MIME ==> mime == "image/png")
    ensures StartsWith(mime, "image/")
  {
    if IsImageType(contentType) then contentType.value
    else
      var key := Upper(format.GetOr(""));
      if key in FORMAT_TO_MIME then FORMAT_TO_MIME[key] else "image/png"
  }

  /** The format name is looked up without regard to case. */
  lemma SelectMimeIgnoresCase(contentType: Option<string>, format: string)
    ensures SelectMime(contentType, Some(format)) == SelectMime(contentType, Some(Upper(format)))
  {
    UpperIdempotent(format);
  }

  /** The JSON form of `box_224`: `[x0, y0, w, h]` or `null`. */
  function BoxValue(box: Option<Box>): Value {
    match box
    case None => Null
    case Some(b) => Ints([b.x0, b.y0, b.w, b.h])
  }

  /** The value a result dictionary holds under one of its keys. */
  function Entry(result: Result, k: Key): Value
    requires k in result.Keys()
  {
    match k
    case Error => Null
    case Label => Str(result.classLabel)
    case Probability => Num(result.probability)
    case ImageDataUrl => Str(result.imageDataUrl.value)
    case CamThr => Num(result.cam.value.camThr)
    case MaskAreaPct => Num(result.cam.value.maskAreaPct)
    case Box224 => BoxValue(result.cam.value.box224)
    case Input224DataUrl => Str(result.cam.value.input224DataUrl)
    case CamHeatmapDataUrl => Str(result.cam.value.camHeatmapDataUrl)
    case OverlayDataUrl => Str(result.cam.value.overlayDataUrl)
    case OverlayBoxDataUrl => Str(result.cam.value.overlayBoxDataUrl)
  }

  /** The JSON object of a result dictionary. */
  function Body(result: Result): (body: map<Key, Value>)
    ensures body.Keys == result.Keys()
    ensures body[Label] == Str(result.classLabel) && body[Probability] == Num(result.probability)
    ensures result.imageDataUrl.Some? ==> body[ImageDataUrl] == Str(result.imageDataUrl.value)
  {
    map k | k in result.Keys() :: Entry(result, k)
  }

  /** With the Grad-CAM step, the object carries each entry of `gradcam_pil`'s dictionary. */
  lemma BodyCam(result: Result)
    requires result.cam.Some?
    ensures var body, r := Body(result), result.cam.value;
      && body[CamThr] == Num(r.camThr) && body[MaskAreaPct] == Num(r.maskAreaPct)
      && body[Box224] == BoxValue(r.box224)
      && body[Input224DataUrl] == Str(r.input224DataUrl)
      && body[CamHeatmapDataUrl] == Str(r.camHeatmapDataUrl)
      && body[OverlayDataUrl] == Str(r.overlayDataUrl)
      && body[OverlayBoxDataUrl] == Str(r.overlayBoxDataUrl)
  {
  }

  /**
   * The `/predict` handler. `payload` is what reading the upload yields; `open` is the image
   * decoder, `formatOf` the decoded image's format name, `probability` the classifier's sigmoid
   * output, `gradcam` the Grad-CAM capture
   * and rendering (`None` when the hooks captured nothing) and `base64` the encoder.
   * `calls` lists the collaborators invoked, in order.
   */
  method Predict<Image>(
    contentType: Option<string>, payload: seq<byte>,
    showImage: bool, showCam: bool, camThr: real,
    open: seq<byte> -> Decoded<Image>, formatOf: Image -> Option<string>,
    probability: Image -> ModelService.Probability, gradcam: (Image, real) -> Option<Capture>,
    base64: seq<byte> -> string)
    returns (response: Response, calls: seq<Collaborator>)
    requires 0.0 <= camThr <= 1.0
    // The content type is checked first, before the upload is even read.
    ensures !Admitted(contentType) ==> response == BadRequest("Upload an image file.") && calls == []
    // Then the payload must be non-empty, before any decoding.
    ensures Admitted(contentType) && |payload| == 0 ==>
      response == BadRequest("Empty upload.") && calls == [FileRead]
    // Then it must open as an image, or the classifier is never run.
    ensures Admitted(contentType) && |payload| > 0 && open(payload).Refused? ==>
      response == BadRequest("Invalid image file.") && calls == [FileRead, ImageOpen]
    // A decoder exception the handler does not catch escapes it.
    ensures Admitted(contentType) && |payload| > 0 && open(payload).Raised? ==>
      response == Unhandled && calls == [FileRead, ImageOpen]
    ensures Predictor in calls <==> Admitted(contentType) && |payload| > 0 && open(payload).Opened?
    ensures Admitted(contentType) && |payload| > 0 && open(payload).Opened? ==>
      Answered(contentType, payload, showImage, showCam, camThr, open(payload).image,
               formatOf, probability, gradcam, base64, response, calls)
  {
    calls := [];
    if !Admitted(contentType) {
      response := BadRequest("Upload an image file.");
      return;
    }

    calls := [FileRead];
    if |payload| == 0 {
      response := BadRequest("Empty upload.");
      return;
    }

    calls := [FileRead, ImageOpen];
    var decoded := open(payload);
    if decoded.Refused? {
      response := BadRequest("Invalid image file.");
      return;
    } else if decoded.Raised? {
      response := Unhandled;
      return;
    }
    var image := decoded.image;

    calls := [FileRead, ImageOpen, Predictor];
    var prediction := PredictPil(probability(image));
    var result := Result(prediction.className, prediction.probability, None, None);

    if showImage {
      var mime := SelectMime(contentType, formatOf(image));
      calls := calls + [Base64];
      result := result.(imageDataUrl := Some(DataUrl(mime, base64(payload))));
    }

    if showCam {
      calls := calls + [GradCam];
      var capture := gradcam(image, camThr);
      if capture.None? {
        response := Unhandled;
        return;
      }
      result := result.(cam := Some(GradCamPil(capture.value, camThr)));
    }

    response := Ok(result);
  }

  /**
   * What the handler answers once the upload has opened as `image`: the collaborators it has
   * called, and the answer. The label and the probability are always answered, the
   * echoed image exactly when it is asked for, the Grad-CAM entries exactly when those are.
   */
  ghost predicate Answered<Image>(
    contentType: Option<string>, payload: seq<byte>,
    showImage: bool, showCam: bool, camThr: real, image: Image,
    formatOf: Image -> Option<string>, probability: Image -> ModelService.Probability,
    gradcam: (Image, real) -> Option<Capture>, base64: seq<byte> -> string,
    response: Response, calls: seq<Collaborator>)
  {
    && calls == [FileRead, ImageOpen, Predictor] + (if showImage then [Base64] else []) + (if showCam then [GradCam] else [])
    && (response.Unhandled? <==> showCam && gradcam(image, camThr).None?)
    && !response.BadRequest?
    && (response.Ok? ==>
      var result := response.result;
      && (result.imageDataUrl.Some? <==> showImage)
      && (result.cam.Some? <==> showCam)
      && result.classLabel == (if probability(image) >= THRESHOLD then "FRACTURE" else "NORMAL")
      && result.probability == probability(image)
      && (showImage ==>
           result.imageDataUrl == Some(DataUrl(SelectMime(contentType, formatOf(image)), base64(payload))))
      && (showCam ==> result.cam == Some(GradCamPil(gradcam(image, camThr).value, camThr))))
  }
}
