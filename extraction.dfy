/** What MessageParser.extract computes, as functions of the part tree and the attachment
    counter threaded through the walk, and what is proved about it. */
module Extraction {
  import opened Wrappers
  import opened Strings
  import opened Seqs
  import opened Mime
  import opened Configuration

  // ---------------------------------------------------------------------------------------
  // Leaf content types

  /** The header lower-cased and cut at the first ';'. */
  function NormaliseContentType(header: string): (t: string)
    ensures ';' !in t
    ensures ToLower(t) == t
    ensures IsPrefix(t, ToLower(header))
    ensures ';' !in header ==> t == ToLower(header)
    ensures |t| < |header| ==> ToLower(header)[|t|] == ';'
  {
    TakeUntil(ToLower(header), ';')
  }

  /** The three types rendered as text; every other type is an attachment. */
  predicate IsContentType(t: string) {
    t == "application/xhtml+xml" || t == "text/html" || t == "text/plain"
  }

  // ---------------------------------------------------------------------------------------
  // Charset from the Content-Type header

  predicate IsCharsetNameChar(c: char) {
    'a' <= c <= 'z' || 'A' <= c <= 'Z' || '0' <= c <= '9' || c == '-'
  }

  /** The longest prefix of `s` made of charset name characters ([0-9a-zA-Z\-]+, greedy). */
  function NameRun(s: string): (r: string)
    ensures IsPrefix(r, s)
    ensures forall i :: 0 <= i < |r| ==> IsCharsetNameChar(r[i])
    ensures |r| < |s| ==> !IsCharsetNameChar(s[|r|])
  {
    if s != [] && IsCharsetNameChar(s[0]) then [s[0]] + NameRun(s[1..]) else []
  }

  const CharsetKey: string := "charset="

  /** The pattern `charset="?([0-9a-zA-Z\-]+)` matched at the very start of `s`; the
      result is group 1. The optional quote is tried first, then left out. */
  function CharsetMatchAt(s: string): (r: Option<string>)
    ensures r.Some? ==> r.value != [] && (forall i :: 0 <= i < |r.value| ==> IsCharsetNameChar(r.value[i]))
    ensures r.Some? ==> IsPrefix(CharsetKey + r.value, s) || IsPrefix(CharsetKey + "\"" + r.value, s)
    ensures !IsPrefix(CharsetKey, s) ==> r.None?
  {
    if !IsPrefix(CharsetKey, s) then None
    else
      var rest := s[|CharsetKey|..];
      assert s == CharsetKey + rest;
      if rest != [] && rest[0] == '"' && NameRun(rest[1..]) != [] then
        assert rest == "\"" + rest[1..];
        Some(NameRun(rest[1..]))
      else if NameRun(rest) != [] then Some(NameRun(rest))
      else None
  }

  /** Matcher.find(): the match that starts at the smallest index. */
  function FindCharsetName(s: string): Option<string>
  {
    if s == [] then None
    else if CharsetMatchAt(s).Some? then CharsetMatchAt(s)
    else FindCharsetName(s[1..])
  }

  /** FindCharsetName finds the leftmost match and nothing else, and finds nothing only
      when no position of the header starts a match. */
  lemma {:induction false} FindCharsetNameIsLeftmost(s: string)
    ensures FindCharsetName(s).Some? ==>
      exists i :: 0 <= i < |s| && CharsetMatchAt(s[i..]) == FindCharsetName(s) &&
                  forall j :: 0 <= j < i ==> CharsetMatchAt(s[j..]).None?
    ensures FindCharsetName(s).None? <==> forall i :: 0 <= i < |s| ==> CharsetMatchAt(s[i..]).None?
  {
    if s != [] {
      FindCharsetNameIsLeftmost(s[1..]);
      assert s[0..] == s;
      assert forall i :: 1 <= i <= |s| ==> s[1..][i - 1..] == s[i..];
      if CharsetMatchAt(s).None? && FindCharsetName(s).Some? {
        var i :| 0 <= i < |s[1..]| && CharsetMatchAt(s[1..][i..]) == FindCharsetName(s[1..]) &&
                  forall j :: 0 <= j < i ==> CharsetMatchAt(s[1..][j..]).None?;
        assert CharsetMatchAt(s[i + 1..]) == FindCharsetName(s);
        forall j | 0 <= j < i + 1 ensures CharsetMatchAt(s[j..]).None? {
          if j > 0 { assert s[j..] == s[1..][j - 1..]; }
        }
      }
    }
  }

  /** MessageParser.getCharsetFromHeader: the charset the header names; the platform
      default when it names none or names one that is unsupported. Any other failure of
      the lookup is not caught there and fails the leaf. */
  function CharsetFromHeader(env: Platform, header: string): (r: Result<Charset, ExtractError>)
    ensures FindCharsetName(header).None? ==> r == Ok(env.defaultCharset)
    ensures r.Err? <==> FindCharsetName(header).Some? && env.forName(FindCharsetName(header).value).IllegalName?
    ensures FindCharsetName(header).Some? && env.forName(FindCharsetName(header).value).Unsupported? ==> r == Ok(env.defaultCharset)
    ensures FindCharsetName(header).Some? && env.forName(FindCharsetName(header).value).Supported? ==>
      r == Ok(env.forName(FindCharsetName(header).value).charset)
  {
    match FindCharsetName(header)
    case None => Ok(env.defaultCharset)
    case Some(name) =>
      match env.forName(name)
      case Supported(cs) => Ok(cs)
      case Unsupported => Ok(env.defaultCharset)
      case IllegalName => Err(IllegalCharsetName)
  }

  // ---------------------------------------------------------------------------------------
  // Content leaves

  const LineBreak: string := "<br />"

  function RenderLine(env: Platform, plain: bool, line: string): string {
    if plain then env.escapeHtml4(line) + LineBreak else line
  }

  /** The html of a content part: every decoded line rendered, in order. */
  function RenderLines(env: Platform, plain: bool, lines: seq<string>): string {
    if lines == [] then "" else RenderLines(env, plain, lines[..|lines| - 1]) + RenderLine(env, plain, lines[|lines| - 1])
  }

  /** Rendering works line by line: the rendering of two runs of lines is the two
      renderings joined. */
  lemma {:induction false} RenderLinesAppend(env: Platform, plain: bool, a: seq<string>, b: seq<string>)
    ensures RenderLines(env, plain, a + b) == RenderLines(env, plain, a) + RenderLines(env, plain, b)
    decreases |b|
  {
    if b == [] {
      assert a + b == a;
    } else {
      assert (a + b)[..|a + b| - 1] == a + b[..|b| - 1];
      RenderLinesAppend(env, plain, a, b[..|b| - 1]);
    }
  }

  /** HTML and XHTML lines are kept unchanged; plain text lines are escaped and each one
      is followed by a line break marker. */
  lemma {:induction false} RenderedLinesAre(env: Platform, plain: bool, lines: seq<string>)
    ensures !plain ==> RenderLines(env, plain, lines) == Concat(lines)
    ensures plain ==>
      RenderLines(env, plain, lines) == Concat(seq(|lines|, i requires 0 <= i < |lines| => env.escapeHtml4(lines[i]) + LineBreak))
  {
    if lines != [] {
      var init := lines[..|lines| - 1];
      RenderedLinesAre(env, plain, init);
      var esc := seq(|lines|, i requires 0 <= i < |lines| => env.escapeHtml4(lines[i]) + LineBreak);
      assert esc[..|esc| - 1] == seq(|init|, i requires 0 <= i < |init| => env.escapeHtml4(init[i]) + LineBreak);
    }
  }

  /** MessageParser.extractContent, given the raw header and the normalised type. */
  function ContentSpec(env: Platform, header: string, mimeType: string, stream: InputStream): (r: Result<MailPartData, ExtractError>)
  {
    var charset :- CharsetFromHeader(env, header);
    match env.readLines(charset, stream)
    case None => Err(ReadFailed)
    case Some(lines) => Ok(Content(mimeType, RenderLines(env, mimeType == "text/plain", lines)))
  }

  // ---------------------------------------------------------------------------------------
  // Attachment leaves

  /** The chunked read of an attachment: before every read (including the one that meets
      the end of the stream) the bytes read so far must not exceed `max`. Since the byte
      count only grows, that is: the whole stream is at most `max` bytes. */
  function ReadAllSpec(stream: InputStream, max: int): Result<seq<byte>, ExtractError> {
    var bytes := Concat(stream.chunks);
    if |bytes| > max then Err(AttachmentSizeExceeded)
    else if stream.failsAtEnd then Err(ReadFailed)
    else Ok(bytes)
  }

  /** MessageParser.extractAttachment, with the attachment counter before the call. */
  function AttachmentSpec(cfg: Config, env: Platform, fileName: Option<string>, contentId: Option<string>,
                          stream: InputStream, mimeType: string, counter: int): Result<MailPartData, ExtractError>
  {
    if QuotaExhausted(cfg, counter) then Err(AttachmentLimitExceeded)
    else
      var filename := cfg.fileTypeBucket.saneFilename(fileName.GetOr(env.randomName(counter)), mimeType);
      if !cfg.fileTypeBucket.checkMimeType(mimeType) then Err(ForbiddenMimeType)
      else
        var bytes :- ReadAllSpec(stream, cfg.maxAllowedAttachmentSizeInBytes);
        var date := env.now(counter);
        Ok(Attachment(mimeType, AttachmentData(filename, mimeType, |bytes|, date, date), bytes, contentId))
  }

  /** An attachment is taken exactly when the quota is not used up, its type is permitted,
      the whole stream fits the size limit and reads without error; the checks run in
      that order, and a taken attachment records exactly the bytes of the stream. */
  lemma AttachmentAcceptedIff(cfg: Config, env: Platform, fileName: Option<string>, contentId: Option<string>,
                              stream: InputStream, mimeType: string, counter: int)
    ensures var r := AttachmentSpec(cfg, env, fileName, contentId, stream, mimeType, counter);
      && (r.Ok? <==> !QuotaExhausted(cfg, counter) && cfg.fileTypeBucket.checkMimeType(mimeType) &&
                     |Concat(stream.chunks)| <= cfg.maxAllowedAttachmentSizeInBytes && !stream.failsAtEnd)
      && (QuotaExhausted(cfg, counter) ==> r == Err(AttachmentLimitExceeded))
      && (!QuotaExhausted(cfg, counter) && !cfg.fileTypeBucket.checkMimeType(mimeType) ==> r == Err(ForbiddenMimeType))
      && ((!QuotaExhausted(cfg, counter) && cfg.fileTypeBucket.checkMimeType(mimeType) &&
           |Concat(stream.chunks)| > cfg.maxAllowedAttachmentSizeInBytes) ==> r == Err(AttachmentSizeExceeded))
      && (r.Ok? ==> r.value.Attachment? && r.value.bytes == Concat(stream.chunks) &&
                    r.value.attachment.fileSize == |r.value.bytes| <= cfg.maxAllowedAttachmentSizeInBytes &&
                    r.value.attachment.mediaType == r.value.contentType == mimeType &&
                    r.value.attachment.creationDate == r.value.attachment.lastModificationDate &&
                    r.value.contentId == contentId)
  {
  }

  // ---------------------------------------------------------------------------------------
  // Leaves

  /** MessageParser.extractPart: a leaf without a content type fails; the three content
      types are rendered, anything else is an attachment. */
  function LeafSpec(cfg: Config, env: Platform, part: MimePart, counter: int): Result<MailPartData, ExtractError>
    requires part.Leaf?
  {
    match part.contentTypeHeader
    case None => Err(MissingContentType)
    case Some(header) =>
      var mimeType := NormaliseContentType(header);
      if IsContentType(mimeType) then ContentSpec(env, header, mimeType, part.stream)
      else AttachmentSpec(cfg, env, part.fileName, part.contentId, part.stream, mimeType, counter)
  }

  /** The classification of a leaf: its normalised type decides content or attachment,
      and the stored type is the normalised one. */
  lemma LeafClassification(cfg: Config, env: Platform, part: MimePart, counter: int)
    requires part.Leaf?
    ensures part.contentTypeHeader.None? ==> LeafSpec(cfg, env, part, counter) == Err(MissingContentType)
    ensures LeafSpec(cfg, env, part, counter).Ok? ==>
      var d := LeafSpec(cfg, env, part, counter).value;
      && part.contentTypeHeader.Some?
      && d.contentType == NormaliseContentType(part.contentTypeHeader.value)
      && (d.Content? <==> IsContentType(d.contentType))
      && (d.Attachment? ==> !QuotaExhausted(cfg, counter))
  {
  }

  // ---------------------------------------------------------------------------------------
  // The walk

  /** Whether a list holds a part whose lower-cased type starts with `t`. */
  predicate HasPreferred(items: seq<MailPartData>, t: string) {
    exists j :: 0 <= j < |items| && IsPrefix(t, ToLower(items[j].contentType))
  }

  predicate AnyHasPreferred(lists: seq<seq<MailPartData>>, t: string) {
    exists i :: 0 <= i < |lists| && HasPreferred(lists[i], t)
  }

  /** The first preferred type, in configured order, that some child's list holds. */
  function FirstPreferred(prefs: seq<string>, lists: seq<seq<MailPartData>>): Option<string> {
    if prefs == [] then None
    else if AnyHasPreferred(lists, prefs[0]) then Some(prefs[0])
    else FirstPreferred(prefs[1..], lists)
  }

  /** The whole lists of the children that hold a part of type `t`, in child order. */
  function Selected(t: string, lists: seq<seq<MailPartData>>): seq<MailPartData> {
    if lists == [] then []
    else Selected(t, lists[..|lists| - 1]) + (if HasPreferred(lists[|lists| - 1], t) then lists[|lists| - 1] else [])
  }

  predicate IsAlternative(contentType: string) {
    IsPrefix("multipart/alternative", ToLower(contentType))
  }

  /** The tail of MessageParser.extractMultiPart: the preference rule for
      multipart/alternative, plain concatenation otherwise. */
  function Combine(prefs: seq<string>, contentType: string, lists: seq<seq<MailPartData>>): seq<MailPartData> {
    if IsAlternative(contentType) && FirstPreferred(prefs, lists).Some? then Selected(FirstPreferred(prefs, lists).value, lists)
    else Concat(lists)
  }

  /** MessageParser.extract: the parts a subtree yields and the attachment counter after
      it. A failing leaf yields nothing and leaves the counter alone. */
  function ExtractSpec(cfg: Config, env: Platform, part: MimePart, counter: int): (seq<MailPartData>, int)
    decreases part, 1
  {
    match part
    case Unreadable => ([], counter)
    case Leaf(_, _, _, _) =>
      (match LeafSpec(cfg, env, part, counter)
       case Ok(d) => ([d], if d.Attachment? then counter + 1 else counter)
       case Err(_) => ([], counter))
    case Multipart(contentType, children) =>
      var (lists, after) := ExtractChildren(cfg, env, children, |children|, counter);
      (Combine(cfg.preferredContentTypes, contentType, lists), after)
  }

  /** The lists of the first `n` children, each extracted with the counter the previous
      ones left. */
  function ExtractChildren(cfg: Config, env: Platform, children: seq<MimePart>, n: nat, counter: int)
    : (r: (seq<seq<MailPartData>>, int))
    requires n <= |children|
    ensures |r.0| == n
    decreases children, n
  {
    if n == 0 then ([], counter)
    else
      var (lists, middle) := ExtractChildren(cfg, env, children, n - 1, counter);
      var (items, after) := ExtractSpec(cfg, env, children[n - 1], middle);
      (lists + [items], after)
  }
}
