/** The MIME part tree the parser walks, the values it produces, and the platform services
    (charset lookup, line decoding, HTML escaping, random names, the clock) it calls. */
module Mime {
  import opened Wrappers

  type byte = b: int | 0 <= b < 256

  /** What one InputStream.read(buffer) into a 1024-byte buffer delivers: 1 to 1024 bytes. */
  type Chunk = c: seq<byte> | 1 <= |c| <= 1024 witness [0]

  /** A part's input stream as the reads it answers: these chunks, then either end of
      stream or an IOException. */
  datatype InputStream = InputStream(chunks: seq<Chunk>, failsAtEnd: bool)

  /** A javax.mail Part. A leaf carries its raw Content-Type header (null: None), its
      file name and Content-ID headers and its body; a container is a Multipart with its
      own content type and children in order; Unreadable is a part whose getContent()
      throws. */
  datatype MimePart =
    | Leaf(contentTypeHeader: Option<string>, fileName: Option<string>, contentId: Option<string>, stream: InputStream)
    | Multipart(contentType: string, children: seq<MimePart>)
    | Unreadable

  datatype Charset = Charset(name: string)

  /** The outcomes of Charset.forName: a charset, UnsupportedCharsetException, or any
      other exception (IllegalCharsetNameException, for one). */
  datatype CharsetLookup = Supported(charset: Charset) | Unsupported | IllegalName

  type Timestamp = int

  datatype AttachmentData = AttachmentData(
    filename: string,
    mediaType: string,
    fileSize: int,
    creationDate: Timestamp,
    lastModificationDate: Timestamp)

  /** One extracted part: text content rendered to HTML, or an attachment with its bytes. */
  datatype MailPartData =
    | Content(contentType: string, html: string)
    | Attachment(contentType: string, attachment: AttachmentData, bytes: seq<byte>, contentId: Option<string>)

  /** Services from outside the parser. `randomName` and `now` stand for UUID.randomUUID
      and new Date(); they are indexed by the attachment counter at the time of the call. */
  datatype Platform = Platform(
    defaultCharset: Charset,
    forName: string -> CharsetLookup,
    readLines: (Charset, InputStream) -> Option<seq<string>>,
    escapeHtml4: string -> string,
    randomName: int -> string,
    now: int -> Timestamp)

  /** Why a leaf was dropped (the source throws a plain Exception for each). */
  datatype ExtractError =
    | MissingContentType
    | IllegalCharsetName
    | ReadFailed
    | AttachmentLimitExceeded
    | ForbiddenMimeType
    | AttachmentSizeExceeded
}
