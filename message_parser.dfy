/** MessageParser: walks the MIME tree of one message, renders the text parts as html and
    reads the attachments, counting the attachments it has taken. Every method is proved
    to compute what the functions of module Extraction specify. */
module Parser {
  import opened Wrappers
  import opened Strings
  import opened Seqs
  import opened Mime
  import opened Configuration
  import opened Extraction
  import ExtractionProperties

  class MessageParser {
    const config: Config
    const platform: Platform
    const message: MimePart

    /** The number of attachments taken so far. */
    var attachmentCounter: int

    constructor (message: MimePart, config: Config, platform: Platform)
      ensures this.message == message && this.config == config && this.platform == platform
      ensures attachmentCounter == 0
    {
      this.message := message;
      this.config := config;
      this.platform := platform;
      attachmentCounter := 0;
    }

    /** The parts of the whole message. */
    method GetContent() returns (r: seq<MailPartData>)
      modifies this
      ensures (r, attachmentCounter) == ExtractSpec(config, platform, message, old(attachmentCounter))
    {
      r := Extract(message);
    }

    /** The parts of one subtree; a part that cannot be read or fails yields nothing. */
    method Extract(part: MimePart) returns (r: seq<MailPartData>)
      modifies this
      ensures (r, attachmentCounter) == ExtractSpec(config, platform, part, old(attachmentCounter))
      decreases part, 1
    {
      match part
      case Unreadable =>
        r := [];
      case Multipart(_, _) =>
        r := ExtractMultiPart(part);
      case Leaf(_, _, _, _) =>
        var d := ExtractPart(part);
        r := if d.Ok? then [d.value] else [];
    }

    /** Every child in order, then the preference rule of multipart/alternative. */
    method ExtractMultiPart(part: MimePart) returns (r: seq<MailPartData>)
      requires part.Multipart?
      modifies this
      ensures (r, attachmentCounter) == ExtractSpec(config, platform, part, old(attachmentCounter))
      decreases part, 0
    {
      var children := part.children;
      var lists: seq<seq<MailPartData>> := [];
      var i := 0;
      while i < |children|
        invariant 0 <= i <= |children|
        invariant (lists, attachmentCounter) == ExtractChildren(config, platform, children, i, old(attachmentCounter))
      {
        var items := Extract(children[i]);
        lists := lists + [items];
        i := i + 1;
      }
      var foundPreferred := false;
      var dataWithPreferred := [];
      if IsAlternative(part.contentType) {
        foundPreferred, dataWithPreferred := SelectPreferred(config.preferredContentTypes, lists);
      }
      if foundPreferred {
        r := dataWithPreferred;
      } else {
        r := ConcatLists(lists);
      }
    }

    /** One leaf: content when its normalised type is one of the three text types, an
        attachment otherwise. The counter grows by one exactly when an attachment is taken. */
    method ExtractPart(part: MimePart) returns (r: Result<MailPartData, ExtractError>)
      requires part.Leaf?
      modifies this
      ensures r == LeafSpec(config, platform, part, old(attachmentCounter))
      ensures attachmentCounter == old(attachmentCounter) + (if r.Ok? && r.value.Attachment? then 1 else 0)
    {
      match part.contentTypeHeader
      case None =>
        r := Err(MissingContentType);
      case Some(header) =>
        var mimeType := NormaliseContentType(header);
        if mimeType == "application/xhtml+xml" || mimeType == "text/html" || mimeType == "text/plain" {
          r := ExtractContent(platform, header, mimeType, part.stream);
        } else {
          r := ExtractAttachment(part.fileName, part.contentId, part.stream, mimeType);
        }
    }

    /** An attachment: quota, file name, permitted type and size are checked in that
        order; a taken attachment is counted. */
    method ExtractAttachment(fileName: Option<string>, contentId: Option<string>, stream: InputStream, mimeType: string)
      returns (r: Result<MailPartData, ExtractError>)
      modifies this
      ensures r == AttachmentSpec(config, platform, fileName, contentId, stream, mimeType, old(attachmentCounter))
      ensures attachmentCounter == old(attachmentCounter) + (if r.Ok? then 1 else 0)
    {
      var maxAttachments := config.maxAllowedNumberOfAttachments;
      if maxAttachments >= 0 && attachmentCounter >= maxAttachments {
        return Err(AttachmentLimitExceeded);
      }
      var filename := if fileName.Some? then fileName.value else platform.randomName(attachmentCounter);
      filename := config.fileTypeBucket.saneFilename(filename, mimeType);
      if !config.fileTypeBucket.checkMimeType(mimeType) {
        return Err(ForbiddenMimeType);
      }
      var read, filesize := ReadAttachmentBytes(stream, config.maxAllowedAttachmentSizeInBytes);
      if read.Err? {
        return Err(read.error);
      }
      var d := platform.now(attachmentCounter);
      r := Ok(Attachment(mimeType, AttachmentData(filename, mimeType, filesize, d, d), read.value, contentId));
      attachmentCounter := attachmentCounter + 1;
    }
  }

  /** The text of a content part, decoded with the charset its header names and rendered
      line by line. */
  method ExtractContent(platform: Platform, header: string, mimeType: string, stream: InputStream)
    returns (r: Result<MailPartData, ExtractError>)
    ensures r == ContentSpec(platform, header, mimeType, stream)
  {
    var charset := CharsetFromHeader(platform, header);
    if charset.Err? {
      return Err(charset.error);
    }
    var read := platform.readLines(charset.value, stream);
    if read.None? {
      return Err(ReadFailed);
    }
    var lines := read.value;
    var html := "";
    for i := 0 to |lines|
      invariant html == RenderLines(platform, mimeType == "text/plain", lines[..i])
    {
      assert lines[..i + 1][..i] == lines[..i];
      if mimeType == "text/plain" {
        html := html + platform.escapeHtml4(lines[i]) + LineBreak;
      } else {
        html := html + lines[i];
      }
    }
    assert lines[..|lines|] == lines;
    r := Ok(Content(mimeType, html));
  }

  /** Reads the stream in chunks of at most 1024 bytes; before every read the bytes read
      so far must not exceed `max`. `filesize` is the number of bytes buffered when the
      loop ends, which is the most the buffer ever held: never more than one chunk beyond
      the limit. */
  method ReadAttachmentBytes(stream: InputStream, max: int) returns (r: Result<seq<byte>, ExtractError>, filesize: int)
    ensures r == ReadAllSpec(stream, max)
    ensures r.Ok? ==> filesize == |r.value|
    ensures r == Err(AttachmentSizeExceeded) ==> filesize > max
    ensures r == Err(ReadFailed) ==> filesize == |Concat(stream.chunks)|
    ensures 0 <= filesize <= |Concat(stream.chunks)|
    ensures filesize <= (if max < 0 then 0 else max) + 1024
  {
    var chunks := stream.chunks;
    var output: seq<byte> := [];
    filesize := 0;
    var idx := 0;
    while true
      invariant 0 <= idx <= |chunks|
      invariant output == Concat(chunks[..idx])
      invariant filesize == |output|
      invariant idx > 0 ==> filesize <= max + 1024
      decreases |chunks| - idx
    {
      ConcatPrefixLength(chunks, idx);
      if filesize > max {
        return Err(AttachmentSizeExceeded), filesize;
      }
      if idx == |chunks| {
        assert chunks[..idx] == chunks;
        if stream.failsAtEnd {
          return Err(ReadFailed), filesize;
        }
        break;
      }
      var buffer := chunks[idx];
      ConcatSnoc(chunks, idx);
      output := output + buffer;
      filesize := filesize + |buffer|;
      idx := idx + 1;
    }
    r := Ok(output);
  }

  /** The nested loops of extractMultiPart for multipart/alternative: the first preferred
      type that some child holds, and the whole lists of every child holding it. */
  method SelectPreferred(prefs: seq<string>, lists: seq<seq<MailPartData>>) returns (found: bool, data: seq<MailPartData>)
    ensures found <==> FirstPreferred(prefs, lists).Some?
    ensures found ==> data == Selected(FirstPreferred(prefs, lists).value, lists)
  {
    found := false;
    data := [];
    for k := 0 to |prefs|
      invariant found <==> FirstPreferred(prefs[..k], lists).Some?
      invariant found ==> data == Selected(FirstPreferred(prefs[..k], lists).value, lists)
    {
      assert prefs[..k + 1] == prefs[..k] + [prefs[k]];
      PrefixFirstPreferred(prefs[..k], prefs[k], lists);
      if !found {
        var t := prefs[k];
        found, data := CollectPreferred(t, lists);
      }
    }
    assert prefs[..|prefs|] == prefs;
  }

  /** One round of the outer loop: every child list holding a part of type `t`. */
  method CollectPreferred(t: string, lists: seq<seq<MailPartData>>) returns (found: bool, data: seq<MailPartData>)
    ensures found <==> AnyHasPreferred(lists, t)
    ensures data == Selected(t, lists)
  {
    found := false;
    data := [];
    for i := 0 to |lists|
      invariant found <==> AnyHasPreferred(lists[..i], t)
      invariant data == Selected(t, lists[..i])
    {
      assert lists[..i + 1][..i] == lists[..i];
      var bodyPartContainsPreferred := ContainsPreferred(lists[i], t);
      if bodyPartContainsPreferred {
        found := true;
        data := data + lists[i];
      }
      assert lists[..i + 1][i] == lists[i];
      assert forall j :: 0 <= j < i ==> lists[..i + 1][j] == lists[..i][j];
    }
    assert lists[..|lists|] == lists;
  }

  /** The innermost loop: whether one child's list holds a part of type `t`. */
  method ContainsPreferred(items: seq<MailPartData>, t: string) returns (contains: bool)
    ensures contains <==> HasPreferred(items, t)
  {
    contains := false;
    for j := 0 to |items|
      invariant contains <==> HasPreferred(items[..j], t)
    {
      assert forall x :: 0 <= x < j ==> items[..j + 1][x] == items[..j][x];
      assert items[..j + 1][j] == items[j];
      if IsPrefix(t, ToLower(items[j].contentType)) {
        contains := true;
      }
    }
    assert items[..|items|] == items;
  }

  /** All lists joined in order. */
  method ConcatLists(lists: seq<seq<MailPartData>>) returns (r: seq<MailPartData>)
    ensures r == Concat(lists)
  {
    r := [];
    for i := 0 to |lists|
      invariant r == Concat(lists[..i])
    {
      ConcatSnoc(lists, i);
      r := r + lists[i];
    }
    assert lists[..|lists|] == lists;
  }

  lemma PrefixFirstPreferred(prefs: seq<string>, t: string, lists: seq<seq<MailPartData>>)
    ensures FirstPreferred(prefs + [t], lists) ==
      if FirstPreferred(prefs, lists).Some? then FirstPreferred(prefs, lists)
      else if AnyHasPreferred(lists, t) then Some(t) else None
  {
    ExtractionProperties.FirstPreferredAppend(prefs, [t], lists);
    assert [t][1..] == [];
  }
}
