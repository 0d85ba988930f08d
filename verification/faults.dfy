/** Every exception the proxy's code can raise on a path the model covers is one
    `Fault` value. */
module Faults {
  /** The exceptions of the modelled code, one constructor per distinct cause. */
  datatype Fault =
    | LineOverflow          // OverflowException: no CRLF within the line bound
    | NegativeLength        // OverflowException: a byte array of negative length
    | TooLarge              // a byte array or memory stream beyond the runtime's size limit
    | StreamClosed          // OperationCanceledException: a read returned no data
    | EmptyBuffer           // ArgumentException: a read into a zero-length buffer
    | MalformedRequestLine  // fewer than three parts in the request line
    | InvalidMethod         // HttpMethod.Parse rejects the method token
    | InvalidUrl            // the request target, or a CONNECT authority, does not form a URI
    | UriNotSet             // the request URI was read before being set
    | MalformedStatusLine   // fewer than two parts in the status line
    | InvalidStatusCode     // the status token does not parse
    | StatusOverflow        // Convert.ToInt16 on a status outside the 16-bit range
    | MalformedHeaderLine   // a header line without ':'
    | InvalidChunkSize      // a chunk-size line that is not hexadecimal
    | MissingChunkEnd       // the line after a chunk's data is not empty
    | UnsupportedEncoding   // a Content-Encoding other than gzip/compress/deflate/br
    | CorruptBody           // the decompressor rejects the body
    | NotEventStream        // an event-stream operation on another content type
    | NoHostname            // the target of a request other than CONNECT gives no base URI
    | HandshakeFailed       // the TLS handshake with the client fails
}
