/**
 The JSON text of a search response and of a file page (app/service.py, app/main.py),
 which the byte budget measures: the lengths of `ResponseTrim` and `FilePaging` are the
 lengths of this text.
 */
module ReplyText {
  import opened Wrappers
  import opened JsonText
  import opened ResponseTrim
  import FilePaging

  /** A file of the response: its JSON, and how many matches it counts. */
  datatype Entry = Entry(json: string, spans: nat)

  /** A response, cut at the values that trimming may change; the pieces hold the keys and all other values. */
  datatype Reply = Reply(
    beforeFileCount: string,
    beforeMatchCount: string,
    beforeFiles: string,
    files: seq<Entry>,
    beforeTruncated: string,
    truncated: bool,
    beforeReason: string,
    reason: Option<string>,
    beforeCursor: string,
    cursor: Option<string>,
    tail: string)

  function Quoted(value: Option<string>): string {
    match value
    case None => "null"
    case Some(s) => "\"" + Escaped(s) + "\""
  }

  function Boolean(b: bool): string {
    if b then "true" else "false"
  }

  /** The items with the default separator between them. */
  function Items(files: seq<Entry>): string
    decreases |files|
  {
    if files == [] then ""
    else if |files| == 1 then files[0].json
    else Items(files[..|files| - 1]) + ", " + files[|files| - 1].json
  }

  function ListedOf(files: seq<Entry>): (r: seq<Listed>)
    ensures |r| == |files|
  {
    seq(|files|, i requires 0 <= i < |files| => Listed(|files[i].json|, files[i].spans))
  }

  /** The body of the response, with the counts that its files give. */
  function Body(r: Reply): string {
    r.beforeFileCount + Numeral(|r.files|)
    + r.beforeMatchCount + Numeral(Spans(ListedOf(r.files)))
    + r.beforeFiles + ("[" + Items(r.files) + "]")
    + r.beforeTruncated + Boolean(r.truncated)
    + r.beforeReason + Quoted(r.reason)
    + r.beforeCursor + Quoted(r.cursor)
    + r.tail
  }

  /** What trimming leaves alone. */
  function Fixed(r: Reply): nat {
    |r.beforeFileCount| + |r.beforeMatchCount| + |r.beforeFiles| + |r.beforeTruncated| + |r.beforeReason|
    + |r.beforeCursor| + |r.tail|
  }

  function EnvelopeOf(r: Reply): Envelope {
    Envelope(Fixed(r), r.truncated, if r.reason.Some? then Some(|Quoted(r.reason)|) else None, |Quoted(r.cursor)|)
  }

  lemma {:induction false} ItemsLength(files: seq<Entry>)
    ensures |Items(files)| + 2 == if files == [] then 2 else ListCost(Costs(ListedOf(files)))
    decreases |files|
  {
    if files != [] {
      var n := |files| - 1;
      ItemsLength(files[..n]);
      assert Costs(ListedOf(files))[..n] == Costs(ListedOf(files[..n]));
      assert Costs(ListedOf(files))[n] == |files[n].json|;
    }
  }

  /** The length that is measured is that of the text. */
  lemma BodyIsMeasured(r: Reply)
    ensures |Body(r)| == WireLength(EnvelopeOf(r), ListedOf(r.files))
  {
    hide Numeral, Digits, Spans, Items, ListCost, Costs, Escaped;
    NumeralReadsBack(|r.files|);
    NumeralReadsBack(Spans(ListedOf(r.files)));
    ItemsLength(r.files);
  }

  /** The response with its first `k` files, flagged, and with the reason it had or else the budget's. */
  function Cut(r: Reply, k: nat): Reply
    requires k <= |r.files|
  {
    r.(files := r.files[..k], truncated := true,
       reason := if r.reason.Some? then r.reason else Some("token_budget"))
  }

  /** What the trim measures after each cut, and sends at the end, is the length of the cut response. */
  lemma CutIsMeasured(r: Reply, k: nat, cursor: Option<string>)
    requires k <= |r.files|
    ensures |Body(Cut(r, k))| == BodyLength(EnvelopeOf(r), ListedOf(r.files))(k)
    ensures |Body(Cut(r, k).(cursor := cursor))|
         == WireLength(Flagged(EnvelopeOf(r)).(cursor := |Quoted(cursor)|), ListedOf(r.files)[..k])
  {
    hide Body, WireLength, Escaped;
    BodyIsMeasured(Cut(r, k));
    BodyIsMeasured(Cut(r, k).(cursor := cursor));
    ReasonLength();
    assert ListedOf(r.files[..k]) == ListedOf(r.files)[..k];
  }

  lemma ReasonLength()
    ensures |Quoted(Some("token_budget"))| == 14
  {
    hide Escaped, TextCost;
    PlainLength("token_budget");
    WrittenReadsBack("token_budget");
  }

  predicate Plain(c: char) {
    'a' <= c <= 'z' || c == '_'
  }

  lemma {:induction false} PlainLength(s: string)
    requires forall i | 0 <= i < |s| :: Plain(s[i])
    ensures TextCost(s) == |s|
    decreases |s|
  {
    if s != "" {
      assert Plain(s[0]);
      PlainLength(s[1..]);
    }
  }

  // ------------------------------------------------------------------ a file page

  /** A `get_file` response, cut at the values that paging sets; the pieces hold the keys and all other values. */
  datatype PageReply = PageReply(
    beforeContent: string, beforeTruncated: string, beforeReason: string, beforeNext: string, tail: string)

  function PageBody(r: PageReply, p: FilePaging.FilePage): string {
    r.beforeContent + Quoted(Some(p.content))
    + r.beforeTruncated + Boolean(p.truncated)
    + r.beforeReason + Quoted(if p.truncated then Some("token_budget") else None)
    + r.beforeNext + (match p.next case None => "null" case Some(n) => Numeral(n))
    + r.tail
  }

  /** Everything but the content between its quotes and the values that paging sets. */
  function PageEnvelope(r: PageReply): nat {
    |r.beforeContent| + 2 + |r.beforeTruncated| + |r.beforeReason| + |r.beforeNext| + |r.tail|
  }

  lemma PageIsMeasured(r: PageReply, p: FilePaging.FilePage)
    ensures |PageBody(r, p)| == FilePaging.WireLength(PageEnvelope(r), p)
  {
    hide Numeral, Digits, Escaped, TextCost;
    ReasonLength();
    WrittenReadsBack(p.content);
    assert |Quoted(Some(p.content))| == TextCost(p.content) + 2;
    if p.next.Some? {
      NumeralReadsBack(p.next.value);
    }
  }
}
