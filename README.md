# Leg-fracture classifier service: label rule, Grad-CAM post-processing and `/predict`

This project models the discrete core of a small X-ray classification service in Dafny.

The classifier itself (a DenseNet169 network) yields one probability per image. The service then
does three things with discrete, checkable behaviour:

- **Label rule.** `predict_pil` turns the probability into the class `"FRACTURE"` when it is at
  least 0.5, and `"NORMAL"` otherwise. The probability is reported unchanged.
- **Grad-CAM post-processing.** `gradcam_pil` takes the 224x224 Grad-CAM map and a threshold. It
  marks every cell whose value reaches the threshold, reports the marked share of the grid as a
  percentage, and reports the bounding box `[x0, y0, w, h]` of the marked cells. The box is
  `None` when nothing is marked. Column indices are x and row indices are y. The four rendered
  images come back as PNG data URLs.
- **The `/predict` endpoint.** It admits an upload by its declared content type, then rejects an
  empty payload, then rejects a payload that does not open as an image. Only after these checks
  does it run the classifier. On request it also echoes the image as a data URL, choosing the
  media type from the declared content type or from the decoded image's format. On request it
  also merges in the Grad-CAM entries.

Modules:

- `Wrappers` (`wrappers.dfy`): an `Option` type.
- `Strings` (`strings.dfy`): `startswith` and ASCII `upper`, plus a one-character search that only the
  data-URL parser uses. That parser is the model's own inverse of the URL construction; the service
  never parses a URL.
- `ModelService` (`model_service.dfy`): the label rule, the mask, the count, the area, the box and
  the data URLs.
- `App` (`app.dfy`): admission, media-type selection, the result dictionary and its JSON object,
  and the handler.

How the opaque parts are represented:

- The Grad-CAM map is the subset type `ModelService.Cam`, a 224 by 224 grid of reals. The mask,
  count and box functions and their lemmas hold for any grid.
- The handler `App.Predict` is a method. Its inputs include:
  - the image decoder;
  - the decoded image's format;
  - the classifier's probability;
  - the Grad-CAM capture and rendering;
  - the base64 encoder.

  Each of these is passed in as a function. The method returns the answer and the trace of
  collaborators it called, in order.
- The result dictionary is the record `App.Result`. The handler fills it in step by step, as the
  source's `result["image_data_url"] = ...` and `result.update(...)` do. Its JSON object is
  `App.Body`.

## Model

| member | source | states |
|---|---|---|
| `ModelService.PredictPil` | model_service.py:47-53 | The probability is returned unchanged and lies in [0, 1], the sigmoid's range, which the input type `Probability` states. The label is one of the two class names. It is `"FRACTURE"` exactly when the probability is at least 0.5 and `"NORMAL"` exactly when it is below. |
| `ModelService.Mask` | model_service.py:111 | `cam >= cam_thr` cell by cell: the mask has the map's shape. Which cells it marks is stated by `MaskMarked` and `MarkedCam`. |
| `ModelService.MaskMarked` | model_service.py:111 | A mask cell is marked exactly when it lies in the grid and its map value is at least the threshold. |
| `ModelService.MarkedCam` | model_service.py:111 | The same rule over the 224x224 map: marked cells are exactly the in-grid cells whose value reaches the threshold. |
| `ModelService.CountRow` | model_service.py:112 | The number of true cells of one row. Bounds and zero case: see `CountRowBounds`. |
| `ModelService.CountTrue` | model_service.py:112 | The number of true cells of the mask, the sum behind `mask.mean()`. See `CountTrueZeroIff`, `CountTrueBound`, `CountTrueMonotone`. |
| `ModelService.CountTrueZeroIff` | model_service.py:112-116 | The count of marked cells is zero exactly when `mask.any()` is false. |
| `ModelService.CountTrueBound` | model_service.py:112 | A grid of `rows` by `cols` has at most `rows * cols` marked cells. |
| `ModelService.CountTrueMonotone` | model_service.py:111-112 | If every marked cell of one mask is marked in another mask of the same shape, the first counts no more. |
| `ModelService.MaskCountMonotone` | model_service.py:111-112 | Raising the threshold never increases the number of marked cells. |
| `ModelService.MaskAreaPct` | model_service.py:112 | The area percentage of a non-empty rectangular mask lies in [0, 100]. It is 0 exactly when no cell is marked. |
| `ModelService.MaskAreaMonotone` | model_service.py:111-112 | Raising the threshold never increases the area percentage of the 224x224 mask. |
| `ModelService.Where` | model_service.py:117 | `np.where(mask)` lists exactly the marked cells. |
| `ModelService.Ys` | model_service.py:117 | The `ys` of `np.where`, the row of each listed cell. Used by `BoundingBox`; see `BoundingBoxCovers`, `BoundingBoxTouches`. |
| `ModelService.Xs` | model_service.py:117 | The `xs` of `np.where`, the column of each listed cell. Used by `BoundingBox`; see `BoundingBoxCovers`, `BoundingBoxTouches`. |
| `ModelService.WhereRows` | model_service.py:117 | `np.where` from a row on lists exactly the marked cells of that row and later rows. |
| `ModelService.Min` | model_service.py:118 | `min()` of a non-empty sequence is one of its elements and no element is smaller. |
| `ModelService.Max` | model_service.py:119 | `max()` of a non-empty sequence is one of its elements and no element is larger. |
| `ModelService.BoundingBox` | model_service.py:114-120 | The box of `gradcam_pil`. See `BoundingBoxIsTight`, `TightBoxUnique`, `BoundingBoxWithinGrid`, `BoundingBoxOfRectangle`, `BoundingBoxShrinks`. |
| `ModelService.BoundingBoxAbsent` | model_service.py:114-117 | The box is `None` exactly when no cell is marked. |
| `ModelService.BoundingBoxCovers` | model_service.py:117-120 | A present box contains every marked cell: `y0 <= r <= y0+h-1` and `x0 <= c <= x0+w-1`. |
| `ModelService.BoundingBoxTouches` | model_service.py:117-120 | Each edge of a present box holds a marked cell: some marked cell is in column `x0`, one in column `x0+w-1`, one in row `y0` and one in row `y0+h-1`. |
| `ModelService.BoundingBoxIsTight` | model_service.py:114-120 | The box is absent exactly when nothing is marked. Otherwise it is the minimal box: `w, h >= 1`, it contains every marked cell, and each edge holds a marked cell. |
| `ModelService.TightBoxUnique` | model_service.py:117-120 | Two boxes that are both minimal for the same mask are equal, so the box is determined by the mask. |
| `ModelService.BoundingBoxWithinGrid` | model_service.py:117-120 | The box of a `rows` by `cols` mask lies inside the grid: `0 <= x0`, `x0+w-1 <= cols-1`, `0 <= y0`, `y0+h-1 <= rows-1`. |
| `ModelService.BoundingBoxOfRectangle` | model_service.py:111-120 | A mask marked on exactly one rectangle has that rectangle as its box. |
| `ModelService.BoundingBoxShrinks` | model_service.py:111-120 | Whenever a higher threshold leaves a box, a lower threshold leaves a box that encloses it. |
| `ModelService.DataUrl` | app.py:68 | The URL starts with `data:<mime>;base64,`, then holds exactly the base64 text, and has that total length. |
| `ModelService.DataUrlRoundTrip` | model_service.py:60 | A data URL whose media type holds no `;` parses back into its media type and its payload. |
| `ModelService.ToDataUrlPng` | model_service.py:56-60 | The URL parses back as media type `image/png` with the given base64 text. |
| `ModelService.GradCamPil` | model_service.py:111-132 | The dictionary `gradcam_pil` returns once the map is computed. See `GradCamPilSpec`. |
| `ModelService.GradCamPilSpec` | model_service.py:111-132 | These hold of `gradcam_pil`'s result: <br>• The threshold is echoed. <br>• The area is in [0, 100]. <br>• The box is absent exactly when the area is 0, and exactly when no map value reaches the threshold. <br>• A present box has `w, h >= 1`, lies in the 224x224 grid, contains every cell whose value reaches the threshold, and is the minimal box. <br>• The four images come back as PNG data URLs of their encodings. |
| `Strings.StartsWith` | app.py:37 | `str.startswith`: the prefix is no longer than the string and equals its first characters. Used by `Admitted`, `IsImageType` and `SelectMime`. |
| `Strings.Upper` | app.py:65 | The result has the input's length. Each character is the upper-cased input character. No lower-case ASCII letter remains. |
| `Strings.UpperIdempotent` | app.py:65 | Upper-casing twice gives the same result as upper-casing once. |
| `App.Truthy` | app.py:36 | Python truthiness of the optional content type: present and non-empty. See `AdmissionRule`. |
| `App.IsImageType` | app.py:64 | A present, non-empty content type starting with `image/`. See `SelectMime`, `AdmissionRule`. |
| `App.Admitted` | app.py:36-40 | The admission test on the content type. See `AdmissionRule`, and `Predict` for the 400 answer it guards. |
| `App.AdmissionRule` | app.py:36-40 | Admitted: a missing content type, an empty one, any `image/...` type and `application/octet-stream`. Nothing else is admitted. |
| `App.SelectMime` | app.py:54-66 | For an `image/...` declared type, the media type is that type exactly. <br>Otherwise it is the table entry for the upper-cased format name. Both `JPEG` and `JPG` give `image/jpeg`. An unknown or missing format gives `image/png`. <br>The result always starts with `image/`. |
| `App.SelectMimeIgnoresCase` | app.py:65 | Upper-casing the format name first does not change the selected media type. |
| `App.Result.Keys` | app.py:51-71 | The keys the result dictionary holds. See `ResultKeys`. |
| `App.Entry` | app.py:51-73 | The value the result dictionary holds under one of its keys. See `Body`, `BodyCam`. |
| `App.ResultKeys` | app.py:51-71 | `label` and `probability` are always keys of the result. `image_data_url` is a key exactly when the image is attached. The Grad-CAM keys are all present exactly when the map is merged in, and none is otherwise. No `error` key is ever present. |
| `App.Body` | app.py:73 | The JSON object has exactly the result's keys. It holds the label, the probability and, when attached, the image data URL. |
| `App.BodyCam` | app.py:71 | With the Grad-CAM step, the object holds each entry of `gradcam_pil`'s dictionary. |
| `App.Predict` | app.py:29-73 | Checks and failures, in order: <br>• A refused content type answers 400 `"Upload an image file."` before the upload is read. <br>• An empty payload answers 400 `"Empty upload."` before any decoding. <br>• A payload that `Image.open` refuses with `UnidentifiedImageError` or `OSError` answers 400 `"Invalid image file."`, and the classifier is not run. <br>• Any other exception from `Image.open` escapes as an unhandled error, again without running the classifier. The classifier runs exactly when the payload opens as an image. <br>What happens after the checks pass: <br>• The collaborators are called in the order read, open, classify, base64 (only if `show_image`), Grad-CAM (only if `show_cam`). <br>• The answer is never a 400. <br>• It holds the label rule's class and the probability. <br>• It holds the image data URL exactly when `show_image`, built from `SelectMime` and the base64 text. <br>• It holds the Grad-CAM entries exactly when `show_cam`. <br>• A failed Grad-CAM capture escapes as an unhandled error. |

## Left out

- The web page served by `frontend.py` is not modelled. It is user interface only.
- Building and loading the network (`build_model`, `load_model`) is not modelled. It is library code and a checkpoint file.
- The forward pass, the backward pass, the hooks, `zero_grad` and the gradient averaging are not modelled. The classifier's probability and the normalised Grad-CAM map are inputs.
- A capture in which the hooks recorded nothing raises `RuntimeError`, and the handler does not catch it. It is modelled as the answer `Unhandled`, which the web framework turns into a 500 answer.
- Preprocessing (`infer_tfms`), bilinear upsampling and the min/max normalisation of the map are not modelled. They are floating-point image operations. The map is taken as given, already 224 by 224.
- The jet colour map, the 0.6/0.4 blend, the box rectangle drawn on the overlay, and PNG encoding are not modelled. They are pixel arithmetic and library calls. The four images' base64 texts are inputs, and the drawn rectangle is not tied to the box.
- Base64 encoding of the upload is a function parameter. Its output is not modelled beyond being text.
- FastAPI routing, start-up, the asynchronous read of the upload and the shared model across concurrent requests are not modelled. They are I/O and concurrency. The payload is an input.
- `Query(ge=0.0, le=1.0)` validation rejects an out-of-range `cam_thr` before the handler runs. `App.Predict` therefore requires `0.0 <= camThr <= 1.0`.
- Floating point is not modelled. Probabilities, map values and the area percentage are exact reals, so `float()` rounding and NaN are not captured.
- `ModelService.MaskAreaPct`: requires a non-empty rectangular mask. The source only ever passes the 224x224 mask, and `mean()` of an empty array is not a number.
- `Strings.Upper`: upper-cases ASCII letters only. Python's `str.upper` also maps other Unicode letters, some of them to several characters; for example `"gıf".upper()` is `"GIF"`. The two agree on the format names PIL reports, which are ASCII capitals. For a non-ASCII format name `App.SelectMime` may pick `image/png` where the source picks a table entry.
- PIL decodes lazily, so some broken files are only noticed later, by the classifier. That later failure is not modelled: `open` either yields an image, is refused (400) or raises an uncaught exception (500) at once.
- `ModelService.DataUrlRoundTrip`: holds only for media types without `;`. A declared content type such as `image/png;x=y` is echoed as is, and the resulting URL does not parse back uniquely.
- The `result` dictionary is the record `App.Result` with an explicit key set, not a mutable Python `dict`. `App.Body` gives its JSON view.
- The parameter defaults are not modelled: `show_image=False`, `show_cam=False` and `cam_thr=0.55` of the endpoint, and `cam_thr=0.55` of `gradcam_pil`. The web framework fills them in before the handler runs, so `App.Predict` and `ModelService.GradCamPil` take every parameter explicitly.
