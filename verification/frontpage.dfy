/** Stage one of `main`: fetch the front page, push its headline records,
    then its link records. A failed fetch (any status outside 2xx, a
    transport error or another exception) is logged and pushes nothing. */
module FrontPage {
  import opened Dom
  import opened Http
  import opened Headlines
  import opened Links

  /** A record pushed to the dataset, in push order. */
  datatype Record =
    | HeadlineRecord(headline: Headline)
    | LinkOut(link: LinkRecord)

  /** The records in push order: every headline record, then every link
      record. */
  function PushOrder(hs: seq<Headline>, ls: seq<LinkRecord>): (r: seq<Record>)
    ensures |r| == |hs| + |ls|
    ensures forall k :: 0 <= k < |hs| ==> r[k] == HeadlineRecord(hs[k])
    ensures forall k :: |hs| <= k < |r| ==> r[k] == LinkOut(ls[k - |hs|])
  {
    seq(|hs|, k requires 0 <= k < |hs| => HeadlineRecord(hs[k]))
    + seq(|ls|, k requires 0 <= k < |ls| => LinkOut(ls[k]))
  }

  method ScrapeFrontPage(page: Fetch<Document>, matches: Matcher, urljoin: UrlJoin) returns (records: seq<Record>)
    ensures !(page.Response? && IsSuccess(page.status)) ==> records == []
    ensures page.Response? && IsSuccess(page.status) ==>
              var hs := FirstOccurrences(Candidates(page.payload, HeadlineSelectors, matches));
              var ls := Numbered(Kept(AnchorsOf(page.payload)), urljoin);
              && |records| == |hs| + |Kept(AnchorsOf(page.payload))|
              && (forall k :: 0 <= k < |hs| ==> records[k] == HeadlineRecord(hs[k]))
              && (forall k :: |hs| <= k < |records| ==> records[k] == LinkOut(ls[k - |hs|]))
              && (forall k :: |hs| <= k < |records| ==> records[k].LinkOut? && records[k].link.position == k - |hs| + 1)
  {
    records := [];
    if page.Response? && IsSuccess(page.status) {
      var doc := page.payload;
      var headlines, _ := EmitHeadlines(doc, matches);
      var links := CollectLinks(AnchorsOf(doc), urljoin);
      NumberedProperties(Kept(AnchorsOf(doc)), urljoin);
      records := PushOrder(headlines, links);
    }
  }
}
