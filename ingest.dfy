/** `load_image`: turns a Streamlit upload into the one-element list of image parts
    the vision model is sent (local.py, cloud.py and app.py carry the same function). */
module Ingest {
  import opened Base

  newtype byte = x: int | 0 <= x < 256

  /** A Streamlit `UploadedFile`: its declared media type (`.type`) and its bytes
      (`.getvalue()`). */
  datatype Upload = Upload(mediaType: string, content: seq<byte>)

  /** One entry of the list handed to `generate_text`: `{"mime_type": …, "data": …}`. */
  datatype ImagePart = ImagePart(mimeType: string, data: seq<byte>)

  /** The exception `load_image` raises. */
  datatype LoadError = FileNotFoundError(message: string)

  /** Fails exactly when nothing was uploaded; otherwise wraps the upload, unchanged,
      in a list of one part. */
  function LoadImage(upload: Option<Upload>): (r: Result<seq<ImagePart>, LoadError>)
    ensures r.Failure? <==> upload.None?
    ensures r.Failure? ==> r.error == FileNotFoundError("No file uploaded")
    ensures r.Success? ==>
      && |r.value| == 1
      && r.value[0].mimeType == upload.value.mediaType
      && r.value[0].data == upload.value.content
  {
    match upload
    case None => Failure(FileNotFoundError("No file uploaded"))
    case Some(u) => Success([ImagePart(u.mediaType, u.content)])
  }
}
