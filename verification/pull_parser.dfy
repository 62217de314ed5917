/**
  The XML pull parser that Android hands out for a package's metadata
  resource, flattened into the sequence of events it would report.

  `ParseError` stands for any exception the parser raises while it is being
  driven (from the first event query, from advancing to the next event, or
  from reading a tag name or attribute): it is placed where the exception
  would surface. A stream that runs out of events is read as reaching the end
  of the document, which is what a real parser reports at the end of input.
 */
module PullParser {
  import opened Options

  datatype Event =
    | StartDocument
    | StartTag(name: string, attributes: map<string, string>)
    | EndTag(name: string)
    /** Character data, and every other event kind the consumer does not inspect. */
    | Text
    | EndDocument
    | ParseError

  /** The value of the attribute `key` of a start tag, or null when the tag has none. */
  function AttributeValue(attributes: map<string, string>, key: string): Option<string>
  {
    if key in attributes then Some(attributes[key]) else None
  }
}
