/** Mail2BlogBaseConfiguration: the read-only settings both engines run under, and the
    defaults its builder supplies. */
module Configuration {
  import opened SpaceRules
  import opened SpaceRuleEnums

  /** The file type policy the parser consults (FileTypeBucket, not part of this model):
      `saneFilename(name, mediaType)` and `checkMimeType(mediaType)`. */
  datatype FileTypeBucket = FileTypeBucket(
    saneFilename: (string, string) -> string,
    checkMimeType: string -> bool)

  /** Every field is non-null in the source (Lombok @NonNull); here that is the type. */
  datatype Config = Config(
    defaultSpace: string,
    spaceRules: seq<SpaceRule>,
    defaultContentType: string,
    preferredContentTypes: seq<string>,    // most preferred first
    maxAllowedAttachmentSizeInBytes: int,
    maxAllowedNumberOfAttachments: int,    // negative: no limit
    fileTypeBucket: FileTypeBucket)

  const DefaultPreferredContentTypes: seq<string> := ["text/html", "application/xhtml+xml", "text/plain"]
  const DefaultMaxAttachmentSize: int := 1024 * 1024 * 100
  const Unlimited: int := -1

  /** What `Mail2BlogBaseConfiguration.builder().build()` gives when nothing is set; the
      default bucket (FileTypeBucket.defaultBucket()) is supplied by the caller. Individual
      settings are overridden with datatype update, as the builder's setters do. */
  function DefaultConfig(defaultBucket: FileTypeBucket): Config {
    Config(
      defaultSpace := "",
      spaceRules := [],
      defaultContentType := ContentTypeName(BlogPost),
      preferredContentTypes := DefaultPreferredContentTypes,
      maxAllowedAttachmentSizeInBytes := DefaultMaxAttachmentSize,
      maxAllowedNumberOfAttachments := Unlimited,
      fileTypeBucket := defaultBucket)
  }

  /** The attachment quota is used up once `counter` successful attachments have been
      taken; a negative limit never runs out. */
  predicate QuotaExhausted(cfg: Config, counter: int) {
    cfg.maxAllowedNumberOfAttachments >= 0 && counter >= cfg.maxAllowedNumberOfAttachments
  }

  /** The defaults: HTML is preferred over XHTML over plain text, the attachment count is
      unlimited (no counter value exhausts the quota), attachments up to 100 MiB are taken,
      there are no rules and the default space is the empty key. */
  lemma DefaultConfigPolicies(b: FileTypeBucket)
    ensures var cfg := DefaultConfig(b);
      && cfg.preferredContentTypes == ["text/html", "application/xhtml+xml", "text/plain"]
      && (forall counter :: !QuotaExhausted(cfg, counter))
      && cfg.maxAllowedAttachmentSizeInBytes == 104857600
      && cfg.spaceRules == [] && cfg.defaultSpace == ""
      && cfg.defaultContentType == "blog"
  {
  }
}
