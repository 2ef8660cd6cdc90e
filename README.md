# mail2blog-base: the message parser and the space router, in Dafny

mail2blog-base turns an e-mail into blog content. This project models its two engines
and the rules and settings they run under. The first engine walks the MIME tree of a
message and extracts text and attachments. The second routes the message to blog spaces
by configured rules.

- **MessageParser** walks the MIME tree of a message. A text leaf (`text/plain`,
  `text/html`, `application/xhtml+xml`) is decoded with the charset its
  `Content-Type` header names and rendered as html. Plain text is escaped and every
  line gets `<br />`. Every other leaf is an attachment. An attachment is taken only if:
  - the per-message attachment quota is not used up;
  - the file type policy permits its type;
  - its stream fits the size limit. The limit is checked before each 1024-byte read.

  A `multipart/alternative` keeps only the children that hold the first preferred
  content type. Any failure drops the subtree where it happened and nothing else. In
  the model:
  - the parser is a class whose `attachmentCounter` field its methods update;
  - module `Extraction` holds the functions that specify it (`ExtractSpec`,
    `ExtractChildren`, `LeafSpec`, `AttachmentSpec`, `ReadAllSpec`, `ContentSpec`,
    `Combine`);
  - every method is proved equal to its function;
  - the properties are proved about the functions (modules `ExtractionProperties`,
    `CharsetProperties`).
- **SpaceExtractor.getSpaces** runs through the space rules in order. For each rule it
  extracts the header values the rule names (from, to, cc, to/cc, subject) and tests
  each value with the rule's operator. The operator is a case-insensitive `is`,
  `contains`, `start` or `end`, or a regexp. For every match it computes a space key:
  either the rule's literal space, or the whole match or first group of the regexp. A
  key is marked seen before the space key validator is asked about it, and a key is
  listed at most once. A Move rule that matched ends the pass. Otherwise the default
  space is appended when the validator knows it. The imperative loops are in module
  `SpaceExtractor`, the specifying functions and their properties in `SpaceRouting`.
- **SpaceRule.validate** and **SpaceRuleSpaces.validate** are the guard chain that
  accepts a rule (`SpaceRules`, `SpaceRuleSpaces`).
- **Mail2BlogBaseConfiguration** holds the settings and its builder's defaults
  (`Configuration`).

The rule fields stay strings, as the configuration stores them. The field, operator,
action and content type names are the enumerations of `SpaceRuleEnums`.

The outside services are fields of function type, so every property holds for every
behaviour of them. They are:
- `Charset.forName`, decoding and line reading, `escapeHtml4`, the random file name and
  the clock: `Mime.Platform`;
- the file type policy: `Configuration.FileTypeBucket`;
- the space key validator and the time-limited regexp search: `SpaceRouting.Router`;
- `Pattern.compile` succeeding: the `compiles` parameter of `SpaceRules.Validate`.

Two behaviours of the code are worth stating, since a reader might expect otherwise:
- The `charset=` key of the `Content-Type` header is matched case-sensitively,
  because the pattern is compiled without flags (`CharsetProperties.UpperCaseKeyIgnored`).
- The result of getSpaces is not fully deduplicated. The default space is appended
  without consulting the seen keys, so it can appear twice
  (`SpaceRouting.DefaultNotDeduplicated`).

## Model

| member | source | states |
|---|---|---|
| SpaceRuleEnums.NamesRoundTrip | src/main/java/de/dm/mail2blog/base/SpaceRule.java:20-25 | each enumeration's parser accepts exactly its printed names and maps them back to the value printed |
| SpaceRuleSpaces.ValidSpace | src/main/java/de/dm/mail2blog/base/SpaceRuleSpaces.java:11-21 | on a regexp rule a sentinel is valid whatever the validator says; in every other case the result is exactly what the validator says |
| SpaceRuleSpaces.SentinelsDistinct | src/main/java/de/dm/mail2blog/base/SpaceRuleSpaces.java:5-6 | the two capture-group sentinels are different strings |
| SpaceRuleSpaces.SentinelOutsideRegexp | src/main/java/de/dm/mail2blog/base/SpaceRuleSpaces.java:12-20 | a sentinel on a non-regexp rule is valid only if the validator knows it |
| SpaceRules.FirstFailure | src/main/java/de/dm/mail2blog/base/SpaceRule.java:30-58 | running guards in order passes exactly when all hold, and a failure reports the first guard that fails |
| SpaceRules.ValidateRunsChecksInOrder | src/main/java/de/dm/mail2blog/base/SpaceRule.java:30-58 | validate is the six guards (field, operator, action, space, content type, regexp compiles) run in source order, first failure wins |
| SpaceRules.ValidateAcceptsExactlyWellFormed | src/main/java/de/dm/mail2blog/base/SpaceRule.java:30-58 | a rule is accepted iff it is well formed; a rejected rule is rejected for the first guard it fails |
| SpaceRules.SentinelOnlyOnRegexp | src/main/java/de/dm/mail2blog/base/SpaceRule.java:43-45 | an accepted rule whose space is a sentinel the validator does not know is a regexp rule |
| SpaceRules.ValidationExamples | src/test/java/ut/de/dm/mail2blog/base/SpaceRuleTest.java:35-51 | the fifteen cases of the validation test give the expected verdict, each rejection naming the expected guard |
| Configuration.DefaultConfigPolicies | src/main/java/de/dm/mail2blog/base/Mail2BlogBaseConfiguration.java:30-36 | builder defaults: html, xhtml, plain text preference order; unlimited attachment count; 100 MiB size limit; no rules; empty default space; blog content type |
| Extraction.NormaliseContentType | src/main/java/de/dm/mail2blog/base/MessageParser.java:199-207 | the stored type is the lower-cased header cut at its first `;`: no `;`, lower case, a prefix of the lower-cased header, all of it when there is no `;`, and when shorter the header's next character is that `;` |
| Extraction.NameRun | src/main/java/de/dm/mail2blog/base/MessageParser.java:100 | the greedy run of `[0-9a-zA-Z-]` characters at the start of a string |
| Extraction.CharsetMatchAt | src/main/java/de/dm/mail2blog/base/MessageParser.java:100 | a match at a position starts with `charset=`, optionally a quote, and yields a non-empty name of charset name characters |
| Extraction.FindCharsetNameIsLeftmost | src/main/java/de/dm/mail2blog/base/MessageParser.java:100-103 | `find()` returns the match at the smallest position, and finds none exactly when no position matches |
| Extraction.CharsetFromHeader | src/main/java/de/dm/mail2blog/base/MessageParser.java:97-116 | no name gives the default charset; a supported name gives its charset; an unsupported name gives the default; the lookup fails exactly when a name was found and it is illegal (not caught) |
| Extraction.RenderLinesAppend | src/main/java/de/dm/mail2blog/base/MessageParser.java:230-236 | the html of a run of lines is the html of its parts joined |
| Extraction.RenderedLinesAre | src/main/java/de/dm/mail2blog/base/MessageParser.java:228-238 | html/xhtml lines are kept as they are; plain text lines are each escaped and followed by `<br />` |
| Extraction.AttachmentAcceptedIff | src/main/java/de/dm/mail2blog/base/MessageParser.java:246-318 | an attachment is taken iff the quota is not used up, its type is permitted, the stream is within the size limit and reads cleanly, with the errors in that order; a taken one holds exactly the stream's bytes and records their number as its size |
| Extraction.LeafClassification | src/main/java/de/dm/mail2blog/base/MessageParser.java:197-216 | a leaf without a content type fails; a leaf is content iff its normalised type is one of the three text types; the stored type is the normalised one |
| Extraction.ExtractChildren | src/main/java/de/dm/mail2blog/base/MessageParser.java:147-150 | one result list per child, in child order |
| ExtractionProperties.FirstPreferredIsFirst | src/main/java/de/dm/mail2blog/base/MessageParser.java:154-177 | the chosen type is the first in configured order that some child holds; none is chosen iff no configured type is held |
| ExtractionProperties.FirstPreferredAppend | src/main/java/de/dm/mail2blog/base/MessageParser.java:157-158 | later preferred types are looked at only when the earlier ones found nothing |
| ExtractionProperties.SelectedMembership | src/main/java/de/dm/mail2blog/base/MessageParser.java:161-174 | an item is kept iff it is in the list of a child that holds the chosen type |
| ExtractionProperties.CombineRule | src/main/java/de/dm/mail2blog/base/MessageParser.java:152-191 | a non-alternative multipart, or an alternative with no preferred type held, returns all child lists joined; otherwise the lists of the children holding the first preferred type |
| ExtractionProperties.ExampleAlternatives | src/main/java/de/dm/mail2blog/base/MessageParser.java:161-174 | for the children of a text/plain + text/html alternative, `text/html` is found only in the html child and `text/plain` only in the text child, and selecting either type picks exactly that child |
| ExtractionProperties.RelatedJoin | src/main/java/de/dm/mail2blog/base/MessageParser.java:182-191 | a non-alternative multipart with two children each yielding one part yields both parts, in order, whatever the preferences |
| ExtractionProperties.DefaultOrderPrefersHtml | src/test/java/ut/de/dm/mail2blog/base/MessageParserTest.java:65-89 | for a related multipart holding an alternative (text, html) and a logo, the default order yields exactly two parts: the html part, then the logo |
| ExtractionProperties.PlainFirstPrefersText | src/test/java/ut/de/dm/mail2blog/base/MessageParserTest.java:103-119 | for the same related multipart, with `text/plain` listed first the result is exactly two parts: the text part, then the logo |
| ExtractionProperties.MixedKeepsEverything | src/main/java/de/dm/mail2blog/base/MessageParser.java:182-191 | a `multipart/mixed` keeps every child's parts in order |
| ExtractionProperties.CountAppend | src/main/java/de/dm/mail2blog/base/MessageParser.java:185-188 | attachment counts add up over joined lists |
| ExtractionProperties.CountZeroMeansNoAttachment | src/main/java/de/dm/mail2blog/base/MessageParser.java:250-253 | a list with no attachment counted holds only content parts |
| ExtractionProperties.CountCombine | src/main/java/de/dm/mail2blog/base/MessageParser.java:179-191 | the preference rule never yields more attachments than the children hold together |
| ExtractionProperties.CountConcatSelected | src/main/java/de/dm/mail2blog/base/MessageParser.java:170-188 | joining keeps every attachment, selecting keeps at most those |
| ExtractionProperties.CounterAccounting | src/main/java/de/dm/mail2blog/base/MessageParser.java:250-314 | the counter never goes down, grows by at least the attachments a subtree yields, and never passes a non-negative limit it started within |
| ExtractionProperties.ChildrenCounterAccounting | src/main/java/de/dm/mail2blog/base/MessageParser.java:147-150 | the same accounting over the children of a multipart, in order |
| ExtractionProperties.AttachmentLimitRespected | src/main/java/de/dm/mail2blog/base/MessageParser.java:250-253 | a message never yields more attachments than a non-negative limit |
| ExtractionProperties.ZeroLimitYieldsNoAttachment | src/test/java/ut/de/dm/mail2blog/base/MessageParserTest.java:146-160 | with a limit of 0 only content parts are extracted |
| ExtractionProperties.LeafOutcome | src/main/java/de/dm/mail2blog/base/MessageParser.java:124-139 | a leaf yields its part when extracted and nothing when it fails, and the counter moves by one exactly for a taken attachment |
| ExtractionProperties.CombineKeepsWellFormed | src/main/java/de/dm/mail2blog/base/MessageParser.java:179-191 | choosing and joining keep only parts the children produced |
| ExtractionProperties.ExtractedItemsWellFormed | src/main/java/de/dm/mail2blog/base/MessageParser.java:197-305 | every extracted part is either content of a text type, or an attachment with a normalised non-text type the policy permits, within the size limit, recording its own size and type |
| ExtractionProperties.ChildrenWellFormed | src/main/java/de/dm/mail2blog/base/MessageParser.java:147-150 | every child list holds only such parts |
| ExtractionProperties.PolicyAndSizeRespected | src/test/java/ut/de/dm/mail2blog/base/MessageParserTest.java:126-179 | a forbidden type is never extracted as an attachment, and with a size limit of 0 only empty attachments can be |
| CharsetProperties.HeaderNamesCharset | src/main/java/de/dm/mail2blog/base/MessageParser.java:100-103 | a header whose first `c` begins `charset=` followed by a name (quoted or not) names exactly that charset |
| CharsetProperties.CharsetExamples | src/test/java/ut/de/dm/mail2blog/base/MessageParserTest.java:47-57 | utf-8, ISO-8859-1 and CP437 resolve to their charsets; a missing or unknown name (`xxx123`) gives the default |
| CharsetProperties.UpperCaseKeyIgnored | src/main/java/de/dm/mail2blog/base/MessageParser.java:100-113 | an upper-case `CHARSET=` names nothing, so the default charset is used |
| Parser.MessageParser.constructor | src/main/java/de/dm/mail2blog/base/MessageParser.java:39-44 | a new parser holds the message and configuration and has counted no attachment |
| Parser.MessageParser.GetContent | src/main/java/de/dm/mail2blog/base/MessageParser.java:85-89 | the parts of the whole message and the new counter are those the walk specifies |
| Parser.MessageParser.Extract | src/main/java/de/dm/mail2blog/base/MessageParser.java:124-139 | the parts of a subtree and the new counter are those the walk specifies; failures yield nothing |
| Parser.MessageParser.ExtractMultiPart | src/main/java/de/dm/mail2blog/base/MessageParser.java:144-192 | the children in order, each with the counter the previous left, then the preference rule |
| Parser.MessageParser.ExtractPart | src/main/java/de/dm/mail2blog/base/MessageParser.java:197-216 | the leaf's outcome as specified; the counter grows by one exactly when an attachment is taken |
| Parser.MessageParser.ExtractAttachment | src/main/java/de/dm/mail2blog/base/MessageParser.java:246-318 | the attachment outcome as specified; the counter grows by one exactly on success |
| Parser.ExtractContent | src/main/java/de/dm/mail2blog/base/MessageParser.java:221-241 | the html accumulated line by line equals the specified rendering |
| Parser.ReadAttachmentBytes | src/main/java/de/dm/mail2blog/base/MessageParser.java:271-293 | the chunked read with the check before every read fails for size iff the stream exceeds the limit; the byte count is the number of bytes read; the returned size is the byte count on success, above the limit on a size failure, the whole stream on a read failure, and never more than the limit plus one 1024-byte chunk |
| Parser.SelectPreferred | src/main/java/de/dm/mail2blog/base/MessageParser.java:154-177 | the flag is set iff a preferred type is held, and the data is the selection for the first one |
| Parser.CollectPreferred | src/main/java/de/dm/mail2blog/base/MessageParser.java:161-174 | one preferred type: whether any child holds it, and the lists of those that do |
| Parser.ContainsPreferred | src/main/java/de/dm/mail2blog/base/MessageParser.java:164-169 | whether one child's list holds an item whose lower-cased type starts with the preferred type |
| Parser.ConcatLists | src/main/java/de/dm/mail2blog/base/MessageParser.java:185-188 | all child lists joined in order |
| SpaceRouting.ValuesOfOneHeader | src/main/java/de/dm/mail2blog/base/SpaceExtractor.java:96-140 | from, to and cc read only their header; an unknown field yields no values |
| SpaceRouting.ValuesOfToCc | src/main/java/de/dm/mail2blog/base/SpaceExtractor.java:111-133 | to/cc yields the To values then the Cc values, duplicates kept; either header failing abandons the rule |
| SpaceRouting.ValuesOfSubject | src/main/java/de/dm/mail2blog/base/SpaceExtractor.java:135-137 | subject yields one trimmed value, and fails iff the subject is absent |
| SpaceRouting.TrimmedIffOwnTrim | src/main/java/de/dm/mail2blog/base/SpaceExtractor.java:106 | a value has non-blank ends (or is empty) exactly when trimming it leaves it unchanged |
| Strings.Trim | src/main/java/de/dm/mail2blog/base/SpaceExtractor.java:136 | String.trim keeps one contiguous slice of the input whose end characters are above U+0020, and every character dropped before or after it is at most U+0020 (all of them when the result is empty) |
| SpaceRouting.ValuesAreTrimmed | src/main/java/de/dm/mail2blog/base/SpaceExtractor.java:96-140 | every value is its own trim: empty, or with first and last character above U+0020 |
| SpaceRouting.EvalCondition | src/main/java/de/dm/mail2blog/base/SpaceExtractor.java:154-176 | an unknown operator is false; the evaluation fails exactly for a regexp whose search fails |
| SpaceRouting.ConditionIgnoresCase | src/main/java/de/dm/mail2blog/base/SpaceExtractor.java:155-162 | the four string operators give the same answer on lower-cased value and rule value |
| SpaceRouting.ExtractSpaceKey | src/main/java/de/dm/mail2blog/base/SpaceExtractor.java:183-214 | the key is the rule's literal space unless the rule is a regexp with a sentinel space |
| SpaceRouting.KeyFromMatchedRegexp | src/main/java/de/dm/mail2blog/base/SpaceExtractor.java:185-206 | on a matched regexp rule, group 0 is the whole match, group 1 the first group, and group 1 without a group fails |
| SpaceRouting.AddKeyStep | src/main/java/de/dm/mail2blog/base/SpaceExtractor.java:49-60 | a new key is marked seen whatever the validator says and listed only if the validator knows it; the pass invariant holds |
| SpaceRouting.ProcessValuesStep | src/main/java/de/dm/mail2blog/base/SpaceExtractor.java:43-62 | a rule's values keep the invariant, only append, and never unset the matched flag |
| SpaceRouting.ProcessRuleStep | src/main/java/de/dm/mail2blog/base/SpaceExtractor.java:41-71 | one rule, failing or not, keeps the invariant and only appends |
| SpaceRouting.RulesPassStep | src/main/java/de/dm/mail2blog/base/SpaceExtractor.java:38-77 | the pass keeps distinct, seen, validated keys and only appends; a seen key's presence never changes |
| SpaceRouting.RejectedKeyNeverAdded | src/main/java/de/dm/mail2blog/base/SpaceExtractor.java:49-56 | a key the validator rejected is never listed later in the pass |
| SpaceRouting.StoppedPassIgnoresLaterRules | src/main/java/de/dm/mail2blog/base/SpaceExtractor.java:73-76 | once a Move rule stopped the pass, appending rules changes nothing |
| SpaceRouting.ProcessValuesMatched | src/main/java/de/dm/mail2blog/base/SpaceExtractor.java:43-62 | a rule's value loop reports a match iff it was already matched or some value matches before any condition fails |
| SpaceRouting.RulesPassAppend | src/main/java/de/dm/mail2blog/base/SpaceExtractor.java:38-77 | a pass not stopped by the first rules continues over the rest from the state they left |
| SpaceRouting.MoveRuleStopsPass | src/main/java/de/dm/mail2blog/base/SpaceExtractor.java:41-76 | a Move rule at any position, reached because no earlier rule stopped the pass, whose values match before any condition fails ends the pass: the result is that rule applied to the state left by the rules before it, and later rules are never evaluated |
| SpaceRouting.MoveRuleEndsGetSpaces | src/main/java/de/dm/mail2blog/base/SpaceExtractor.java:73-79 | when such a Move rule exists, getSpaces returns exactly the spaces after that rule, with no default appended |
| SpaceRouting.MoveRuleStopsEvenWhenKeyFails | src/main/java/de/dm/mail2blog/base/SpaceExtractor.java:41-76 | a matched Move rule whose key extraction fails still ends the pass, with no default |
| SpaceRouting.GetSpacesShape | src/main/java/de/dm/mail2blog/base/SpaceExtractor.java:33-91 | rule spaces first, with distinct keys the validator knows; the default is appended iff no Move rule stopped the pass and the validator knows it |
| SpaceRouting.NoRulesGivesDefault | src/main/java/de/dm/mail2blog/base/SpaceExtractor.java:79-88 | with no rules the result is the default space alone, or nothing when the validator does not know it |
| SpaceRouting.LiteralRuleAdds | src/main/java/de/dm/mail2blog/base/SpaceExtractor.java:43-60 | a rule whose only value matches adds its new, known literal space and is marked matched |
| SpaceRouting.MoveShortCircuitExample | src/test/java/ut/de/dm/mail2blog/base/SpaceExtractionTest.java:58-70 | copy then move: both spaces in order, and neither later rules nor the default |
| SpaceRouting.DefaultNotDeduplicated | src/main/java/de/dm/mail2blog/base/SpaceExtractor.java:79-88 | a default space a rule already listed is listed again |
| SpaceExtractor.AppendAddresses | src/main/java/de/dm/mail2blog/base/SpaceExtractor.java:102-107 | the loop appends the trimmed address of every header entry in order |
| SpaceExtractor.AppendHeader | src/main/java/de/dm/mail2blog/base/SpaceExtractor.java:99-108 | a null header adds nothing, a failing one fails, otherwise its values are appended |
| SpaceExtractor.ExtractValues | src/main/java/de/dm/mail2blog/base/SpaceExtractor.java:96-140 | the four guarded blocks compute the specified values |
| SpaceExtractor.GetSpaces | src/main/java/de/dm/mail2blog/base/SpaceExtractor.java:33-91 | the loops with the seen-set, the early return and the default compute the specified spaces |

## Left out

- `getSenderEmail` (address parsing through `InternetAddress.parse`) is not part of this model.
- The content ID of an attachment is taken from the part unconditionally. The source
  copies it only when the part is a `MimeBodyPart`.
- The regexp time limit (a thread per call) is folded into the search result `Failed`.
  The search is deterministic: the condition and the key extraction see the same
  outcome for the same pattern and value. A group that did not take part in the match
  (Java returns null) is not modelled.
- Java regular expressions, `Pattern.compile`, `Charset.forName`, decoding,
  `BufferedReader.readLine`, `escapeHtml4`, `FileTypeBucket` and the space key validator
  are oracles. Line breaks inside decoded lines are not modelled.
- Lower-casing is ASCII only. Java's `toLowerCase` and `equalsIgnoreCase` also fold
  other letters.
- Null strings are not modelled: a null file name is `None`, and a null header
  array or subject is a `Read` value. Rule fields, addresses and header strings are
  never null here.
- The random file name and the timestamp are functions of the counter value, standing
  for values chosen at run time.
- A part whose content cannot be read is `Unreadable`, and a failing `getInputStream` is a stream
  whose read fails. A multipart that throws while its children are visited loses its
  whole result in the source, keeping the counter increments already made. The model
  visits the children of a multipart without failure.
- Parser.MessageParser.ExtractAttachment: `attachmentCounter` is an unbounded integer;
  the 32-bit `int` of the source would wrap only after 2^31 attachments.
- Logging and the JSON dump of a failing rule are left out.
- `HtmlFilterFactory` is not part of this model.
- `SpaceRule.validate` has no side effects by construction: it is a function.
