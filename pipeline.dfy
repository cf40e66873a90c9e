/**
 * What one press of "Extract Text" does in each script's `main`, up to the point where
 * the extracted text is handed to the store. The store classes (Local, Cloud, App)
 * then perform the insert the stage calls for.
 */
module Pipeline {
  import opened Base
  import opened Ingest
  import opened Extraction

  /** How far a run of the extraction branch got. */
  datatype Stage =
    | Idle                // the branch's guard was false: nothing attempted
    | MissingUpload       // `load_image` raised `FileNotFoundError`
    | InferenceFailed     // `generate_text` raised
    | Unsaved             // the response was shown but "Save Data" was not pressed (app.py)
    | NoJson              // "No valid JSON found in the response."
    | Store(json: string) // the text passed to the insert

  /** local.py and cloud.py: only with the button pressed, a file uploaded and a non-empty
      document name is anything attempted; the insert follows only when the greedy
      extractor produced (truthy) text, and it receives exactly that text. Under this
      guard `load_image` never raises. */
  function GreedyStage(submit: bool, upload: Option<Upload>, documentName: string,
                       response: Option<string>): (r: Stage)
    ensures r.Store? <==>
      && submit && upload.Some? && documentName != ""
      && response.Some? && ExtractGreedy(response.value).Some?
    ensures r.Store? ==> r.json == ExtractGreedy(response.value).value
    ensures !r.MissingUpload? && !r.Unsaved?
    ensures r.Idle? <==> !(submit && upload.Some? && documentName != "")
  {
    if !(submit && upload.Some? && documentName != "") then Idle
    else match LoadImage(upload)
      case Failure(_) => MissingUpload
      case Success(_) =>
        match response
        case None => InferenceFailed
        case Some(text) =>
          match ExtractGreedy(text)
          case None => NoJson
          case Some(json) => if json != "" then Store(json) else NoJson
  }

  /** app.py: the branch runs on the button alone, so a missing upload makes `load_image`
      raise; the insert follows only when "Save Data" is pressed and the lazy extractor
      produced (truthy) text, and it receives exactly that text. */
  function LazyStage(submit: bool, upload: Option<Upload>, save: bool,
                     response: Option<string>): (r: Stage)
    ensures r.Store? <==>
      && submit && upload.Some? && response.Some? && save
      && ExtractLazy(response.value).Some?
    ensures r.Store? ==> r.json == ExtractLazy(response.value).value
    ensures r.MissingUpload? <==> submit && upload.None?
    ensures r.InferenceFailed? <==> submit && upload.Some? && response.None?
    ensures r.Idle? <==> !submit
  {
    if !submit then Idle
    else match LoadImage(upload)
      case Failure(_) => MissingUpload
      case Success(_) =>
        match response
        case None => InferenceFailed
        case Some(text) =>
          if !save then Unsaved
          else match ExtractLazy(text)
            case None => NoJson
            case Some(json) => if json != "" then Store(json) else NoJson
  }
}
