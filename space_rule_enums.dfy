/** The string-typed enumerations a space rule is written in (SpaceRuleFields, SpaceRuleOperators,
    SpaceRuleActions, ContentTypes). Rules keep the strings, as the configuration stores them;
    each enumeration has one parser and one printer, and they are inverse to each other. */
module SpaceRuleEnums {
  import opened Wrappers

  datatype Field = From | To | Cc | ToCc | Subject
  datatype Operator = Is | Contains | StartsWith | EndsWith | Regexp
  datatype Action = Copy | Move
  datatype ContentType = BlogPost | Page

  function FieldName(f: Field): string {
    match f
    case From => "from"
    case To => "to"
    case Cc => "cc"
    case ToCc => "to/cc"
    case Subject => "subject"
  }

  function ParseField(s: string): (r: Option<Field>)
    ensures r.Some? ==> FieldName(r.value) == s
  {
    if s == "from" then Some(From)
    else if s == "to" then Some(To)
    else if s == "cc" then Some(Cc)
    else if s == "to/cc" then Some(ToCc)
    else if s == "subject" then Some(Subject)
    else None
  }

  function OperatorName(o: Operator): string {
    match o
    case Is => "is"
    case Contains => "contains"
    case StartsWith => "start"
    case EndsWith => "end"
    case Regexp => "regexp"
  }

  function ParseOperator(s: string): (r: Option<Operator>)
    ensures r.Some? ==> OperatorName(r.value) == s
  {
    if s == "is" then Some(Is)
    else if s == "contains" then Some(Contains)
    else if s == "start" then Some(StartsWith)
    else if s == "end" then Some(EndsWith)
    else if s == "regexp" then Some(Regexp)
    else None
  }

  function ActionName(a: Action): string {
    match a
    case Copy => "copy"
    case Move => "move"
  }

  function ParseAction(s: string): (r: Option<Action>)
    ensures r.Some? ==> ActionName(r.value) == s
  {
    if s == "copy" then Some(Copy) else if s == "move" then Some(Move) else None
  }

  function ContentTypeName(c: ContentType): string {
    match c
    case BlogPost => "blog"
    case Page => "page"
  }

  function ParseContentType(s: string): (r: Option<ContentType>)
    ensures r.Some? ==> ContentTypeName(r.value) == s
  {
    if s == "blog" then Some(BlogPost) else if s == "page" then Some(Page) else None
  }

  /** Printing then parsing gives back every enumeration value; with the ensures of the
      parsers this makes each parser and printer a bijection between the enumeration and
      the accepted strings. */
  lemma NamesRoundTrip(f: Field, o: Operator, a: Action, c: ContentType)
    ensures ParseField(FieldName(f)) == Some(f)
    ensures ParseOperator(OperatorName(o)) == Some(o)
    ensures ParseAction(ActionName(a)) == Some(a)
    ensures ParseContentType(ContentTypeName(c)) == Some(c)
  {
  }
}
