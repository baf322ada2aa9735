/**
 * The upload's `tags` form field (index.js:73-77), the per-file metadata value
 * built from it (index.js:89-91), and the tag list the listing and details
 * handlers read back (index.js:121, 171).
 */
module Tags {
  import opened Wrappers
  import opened Text

  /**
   * One element of a parsed JSON array. Scalars (strings, numbers, booleans)
   * are given by their string form; a nested array by the string forms that
   * `Array.prototype.join` uses for its elements; `null` is Null.
   */
  datatype TagEntry = Text(s: string) | Group(parts: seq<string>) | Null

  /** What `tags` holds after index.js:73-77. */
  datatype TagsField =
    | Unparsable(raw: Option<string>)        // JSON.parse threw: tags = [req.body.tags]
    | JsonArray(items: seq<TagEntry>)
    | JsonString(s: string)                  // tags[i] is the i-th character
    | JsonObject(fields: map<nat, TagEntry>) // tags[i] is the field named by i in decimal
    | JsonNull                               // tags[i] throws a TypeError
    | JsonScalar                             // a number or boolean: tags[i] is undefined

  /** The metadata value for one file, or the TypeError that `tags[i]` throws. */
  datatype TagLookup = Tag(meta: Option<string>) | Throws

  /** index.js:90 on one entry: a list is joined with `,`, anything else kept. */
  function EntryMeta(e: TagEntry): Option<string>
  {
    match e
    case Text(s) => Some(s)
    case Group(parts) => Some(Join(parts, ','))
    case Null => None
  }

  /** index.js:90: the `tags` metadata of the file at index i. */
  function TagMeta(tags: TagsField, i: nat): (r: TagLookup)
    ensures r.Throws? <==> tags.JsonNull?
  {
    match tags
    case Unparsable(raw) => if i == 0 then Tag(raw) else Tag(None)
    case JsonArray(items) => if i < |items| then Tag(EntryMeta(items[i])) else Tag(None)
    case JsonString(s) => if i < |s| then Tag(Some([s[i]])) else Tag(None)
    case JsonObject(fields) => if i in fields then Tag(EntryMeta(fields[i])) else Tag(None)
    case JsonNull => Throws
    case JsonScalar => Tag(None)
  }

  /** index.js:121, 171: a missing or empty value gives [], any other is split on `,`. */
  function TagList(meta: Option<string>): (r: seq<string>)
    ensures meta.None? || meta.value == "" <==> r == []
  {
    if meta.None? || meta.value == "" then [] else Split(meta.value, ',')
  }

  /**
   * Reading back a list of tags stored by an upload gives the list, provided no
   * tag holds a `,` and the list is not the single empty tag.
   */
  lemma GroupRoundTrip(parts: seq<string>)
    requires forall k :: 0 <= k < |parts| ==> ',' !in parts[k]
    requires parts != [""]
    ensures TagList(EntryMeta(Group(parts))) == parts
  {
    if parts != [] {
      if |parts| == 1 {
        assert Join(parts, ',') == parts[0];
      } else {
        assert |Join(parts, ',')| > 0 by { assert Join(parts, ',') == parts[0] + [','] + Join(parts[1..], ','); }
      }
      SplitJoin(parts, ',');
    }
  }

  /** A single comma-free, non-empty tag reads back as a one-element list. */
  lemma TextRoundTrip(s: string)
    requires ',' !in s && s != ""
    ensures TagList(EntryMeta(Text(s))) == [s]
  {
    SplitJoin([s], ',');
  }

  /** A stored metadata value is recovered from its tag list by joining with `,`. */
  lemma TagListJoin(meta: string)
    ensures Join(TagList(Some(meta)), ',') == meta
  {
    if meta != "" {
      JoinSplit(meta, ',');
    }
  }

  /**
   * index.js:73-77, 90: when the field does not parse, only the first file
   * receives the raw text; every later file gets no tag.
   */
  lemma UnparsableOnlyFirst(raw: string, i: nat)
    ensures TagMeta(Unparsable(Some(raw)), i) == if i == 0 then Tag(Some(raw)) else Tag(None)
    ensures i > 0 ==> TagList(TagMeta(Unparsable(Some(raw)), i).meta) == []
  {
  }

  /** index.js:90: files beyond the end of a JSON array get no tag. */
  lemma ShortArrayNoTag(items: seq<TagEntry>, i: nat)
    requires i >= |items|
    ensures TagMeta(JsonArray(items), i) == Tag(None)
    ensures TagList(TagMeta(JsonArray(items), i).meta) == []
  {
  }
}
