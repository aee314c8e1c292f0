/** Why a run of the downloader stops, and the shape of an HTTP reply as the
    modelled code sees it. Every `panic!`, `unwrap` on a missing value and
    `?` on an error in the client becomes one of these failures. */
module Failures {

  datatype Failure =
    | Transport                            // reqwest reported no response (`?` or panic)
    | LoginPageStatus(status: int)         // the login page answered with a non-2xx status
    | TokenPatternMissing                  // no authenticity-token field on the login page
    | LoginRejected                        // the login form post failed or was refused
    | SentToLogin                          // a listing request was redirected to the login page
    | MarkerMissing                        // no `gon.media=` on a listing page
    | PayloadUnterminated                  // the bracket depth never came back to zero
    | MalformedPayload(json: string)       // the JSON decoder refused the payload
    | UnknownMediaType(mediaType: string)  // neither "photo" nor "movie"
    | MissingVideoUrl                      // a movie without `expiring_video_url`
    | UnknownContentType(contentType: string)
    | TranscoderFailed                     // ffmpeg could not be fetched, started or read
    | RawFileMissing                       // metadata of the raw file could not be read

  /** An HTTP exchange: either no response at all, or a status and a body. */
  datatype Response<T> = NoResponse | Response(status: int, body: T)

  /** reqwest's `StatusCode::is_success`. */
  predicate IsSuccess(status: int) {
    200 <= status <= 299
  }
}
