/** The kinds of error that travel through `anyhow::Error` in the pipeline. */
module Errors {

  datatype Error =
    | Network       // a `reqwest` error: the metadata GET, its body, or an image GET
    | Decode        // `serde_json::from_str` rejected the metadata body
    | HeaderNotStr  // `HeaderValue::to_str` rejected the Content-Type header
    | Io            // `create_dir_all`, `File::create` or `write_all` failed
    | BuildFailed   // the aggregate "Fail build RSS" of a run with a failed target
}
