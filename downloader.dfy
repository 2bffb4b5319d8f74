/** `src/ingestion/downloader.py`: mapping arXiv search results to paper
    metadata, and the target path of a download. */
module Downloader {
  import opened Wrappers
  import PyStr
  import Paths
  import IsoTime

  /** The constructor's default `max_results`. */
  const DefaultMaxResults: int := 100

  /** The constructor's default `output_dir`. */
  const DefaultOutputDir: string := "./data/raw"

  /** `PaperMetadata`: one paper as the rest of the pipeline sees it. */
  datatype PaperMetadata = PaperMetadata(
    arxivId: string,
    title: string,
    authors: seq<string>,
    abstractText: string,
    categories: seq<string>,
    published: string,
    pdfUrl: string)

  /** An author of an `arxiv.Result`. */
  datatype Author = Author(name: string)

  /** One record the arXiv client yields for a search. */
  datatype ArxivResult = ArxivResult(
    entryId: string,
    title: string,
    authors: seq<Author>,
    summary: string,
    categories: seq<string>,
    published: IsoTime.Timestamp,
    pdfUrl: string)

  datatype SortCriterion = Relevance | LastUpdatedDate | SubmittedDate

  /** `arxiv.Search(query=..., max_results=..., sort_by=...)`. */
  datatype Search = Search(query: string, maxResults: int, sortBy: SortCriterion)

  /** The exception both download operations end in. */
  datatype DownloadError = NotImplemented(message: string)

  /** `entry_id.split("/")[-1]`: the longest slash-free suffix of the entry
      URL. */
  function ArxivId(entryId: string): (r: string)
    ensures |r| <= |entryId| && r == entryId[|entryId| - |r|..]
    ensures '/' !in r
    ensures |r| == |entryId| || entryId[|entryId| - |r| - 1] == '/'
    ensures '/' !in entryId ==> r == entryId
  {
    PyStr.LastSegmentIsMaximalSuffix(entryId, '/');
    PyStr.LastSegment(entryId, '/')
  }

  /** Whatever precedes the last slash is dropped. For the old-style
      identifiers "hep-th/9901001v1" and "math/9901001v1" this yields the same
      `arxiv_id` "9901001v1" for two different papers. */
  lemma ArxivIdAfterLastSlash(prefix: string, id: string)
    requires '/' !in id
    ensures ArxivId(prefix + "/" + id) == id
  {
    var s := prefix + "/" + id;
    var r := ArxivId(s);
    assert s[|prefix|] == '/';
    assert s[|s| - |id|..] == id;
  }

  /** Two different old-style papers, one in hep-th and one in math, get the
      same `arxiv_id`. */
  lemma OldStyleIdsCollide()
    ensures ArxivId("http://arxiv.org/abs/hep-th/9901001v1") == "9901001v1"
    ensures ArxivId("http://arxiv.org/abs/math/9901001v1") == "9901001v1"
  {
    var id := "9901001v1";
    assert '/' !in id;
    assert "http://arxiv.org/abs/hep-th/9901001v1" == "http://arxiv.org/abs/hep-th" + "/" + id;
    assert "http://arxiv.org/abs/math/9901001v1" == "http://arxiv.org/abs/math" + "/" + id;
    ArxivIdAfterLastSlash("http://arxiv.org/abs/hep-th", id);
    ArxivIdAfterLastSlash("http://arxiv.org/abs/math", id);
  }

  /** `max_results or self.max_results`: `None` and 0 both fall back to the
      instance default; every other count, negative ones too, is kept. */
  function EffectiveMax(maxResults: Option<int>, instanceDefault: int): (r: int)
    ensures maxResults.Some? && maxResults.value != 0 ==> r == maxResults.value
    ensures maxResults.None? || maxResults.value == 0 ==> r == instanceDefault
  {
    if maxResults.Some? && maxResults.value != 0 then maxResults.value else instanceDefault
  }

  /** `[author.name for author in result.authors]`. */
  function AuthorNames(authors: seq<Author>): seq<string>
  {
    seq(|authors|, i requires 0 <= i < |authors| => authors[i].name)
  }

  /** The `PaperMetadata(...)` built for one result inside the loop. */
  function ToMetadata(r: ArxivResult): PaperMetadata
  {
    PaperMetadata(
      arxivId := ArxivId(r.entryId),
      title := r.title,
      authors := AuthorNames(r.authors),
      abstractText := r.summary,
      categories := r.categories,
      published := IsoTime.IsoFormat(r.published),
      pdfUrl := r.pdfUrl)
  }

  /** `filename or f"{paper.arxiv_id}.pdf"`: a missing or empty name falls back. */
  function FileName(paper: PaperMetadata, filename: Option<string>): (r: string)
    ensures filename.Some? && filename.value != "" ==> r == filename.value
    ensures filename.None? || filename.value == "" ==> r == paper.arxivId + ".pdf"
  {
    if filename.Some? && filename.value != "" then filename.value else paper.arxivId + ".pdf"
  }

  /** The field mapping of `search_papers`: the id is cut from the entry
      URL, the author list keeps names in order, the timestamp is written in
      ISO form and every other field is copied unchanged. */
  predicate Describes(p: PaperMetadata, r: ArxivResult)
  {
    && p.arxivId == ArxivId(r.entryId)
    && p.title == r.title
    && |p.authors| == |r.authors|
    && (forall j :: 0 <= j < |p.authors| ==> p.authors[j] == r.authors[j].name)
    && p.abstractText == r.summary
    && p.categories == r.categories
    && p.published == IsoTime.IsoFormat(r.published)
    && p.pdfUrl == r.pdfUrl
  }

  /** The record built in the loop has that mapping. */
  lemma ToMetadataDescribes(r: ArxivResult)
    ensures Describes(ToMetadata(r), r)
  {
  }

  /** The mapping leaves no freedom: it fixes every field of the record. */
  lemma DescribesDetermines(p: PaperMetadata, r: ArxivResult)
    requires Describes(p, r)
    ensures p == ToMetadata(r)
  {
    assert p.authors == AuthorNames(r.authors);
  }

  /** A paper's published text reads back as the client's timestamp. */
  lemma PublishedReadsBack(r: ArxivResult)
    ensures IsoTime.ParseIso(ToMetadata(r).published) == Some(r.published)
  {
    IsoTime.ParseIsoFormat(r.published);
  }

  /** `ArXivDownloader`. Its fields are set once by the constructor;
      creating the output directory and the arXiv client itself are outside
      this model. */
  class ArXivDownloader {
    const outputDir: Paths.Path
    const maxResults: int

    constructor (outputDir: string := DefaultOutputDir, maxResults: int := DefaultMaxResults)
      ensures this.outputDir == Paths.PathOf(outputDir)
      ensures this.maxResults == maxResults
    {
      this.outputDir := Paths.PathOf(outputDir);
      this.maxResults := maxResults;
    }

    /** `search_papers`. `results` stands for what `self.client.results(search)`
        yields for the request built here. The request is made from `query`
        and the effective count alone (`categories` does not reach it), and
        the answer holds one `PaperMetadata` per result, in the client's
        order. */
    method SearchPapers(query: string, maxResults: Option<int>,
                        categories: Option<seq<string>>, results: seq<ArxivResult>)
      returns (search: Search, papers: seq<PaperMetadata>)
      ensures search == Search(query, EffectiveMax(maxResults, this.maxResults), Relevance)
      ensures |papers| == |results|
      ensures forall i :: 0 <= i < |papers| ==> Describes(papers[i], results[i])
    {
      var effectiveMax := EffectiveMax(maxResults, this.maxResults);
      search := Search(query, effectiveMax, Relevance);
      papers := [];
      for k := 0 to |results|
        invariant |papers| == k
        invariant forall i :: 0 <= i < k ==> papers[i] == ToMetadata(results[i])
      {
        var paper := ToMetadata(results[k]);
        papers := papers + [paper];
      }
      forall i | 0 <= i < |papers| ensures Describes(papers[i], results[i]) {
        ToMetadataDescribes(results[i]);
      }
    }

    /** The `output_path` that `download_pdf` computes (and only logs). */
    function DownloadTarget(paper: PaperMetadata, filename: Option<string>): Paths.Path
    {
      Paths.Div(outputDir, FileName(paper, filename))
    }

    /** `download_pdf`: whatever the paper and the name, it raises
        `NotImplementedError` and writes nothing. */
    function DownloadPdf(paper: PaperMetadata, filename: Option<string> := None)
      : (r: Result<Paths.Path, DownloadError>)
      ensures r == Failure(NotImplemented("PDF download not yet implemented"))
    {
      var outputPath := DownloadTarget(paper, filename);
      Failure(NotImplemented("PDF download not yet implemented"))
    }

    /** `batch_download`: raises `NotImplementedError` for every list, the
        empty one included, and writes nothing. */
    function BatchDownload(papers: seq<PaperMetadata>, skipExisting: bool := true)
      : (r: Result<seq<Paths.Path>, DownloadError>)
      ensures r == Failure(NotImplemented("Batch download not yet implemented"))
    {
      Failure(NotImplemented("Batch download not yet implemented"))
    }
  }

  /** Without a usable custom name, a paper with a slash-free id is written
      as `<arxiv_id>.pdf` directly inside the output directory. */
  lemma DefaultTargetInOutputDir(d: ArXivDownloader, paper: PaperMetadata, filename: Option<string>)
    requires filename.None? || filename.value == ""
    requires '/' !in paper.arxivId
    ensures d.DownloadTarget(paper, filename)
         == Paths.Path(d.outputDir.absolute, d.outputDir.parts + [paper.arxivId + ".pdf"])
  {
    var name := paper.arxivId + ".pdf";
    assert name[|name| - 4..] == ".pdf";
    assert '/' !in name by {
      forall i | 0 <= i < |name| ensures name[i] != '/' {
        if i < |paper.arxivId| { assert name[i] == paper.arxivId[i]; }
      }
    }
    Paths.DivPlainName(d.outputDir, name);
  }

  /** Every paper `search_papers` returns has a slash-free id, so its default
      download target is `<arxiv_id>.pdf` inside the output directory. */
  lemma SearchedPaperTarget(d: ArXivDownloader, r: ArxivResult)
    ensures d.DownloadTarget(ToMetadata(r), None)
         == Paths.Path(d.outputDir.absolute, d.outputDir.parts + [ArxivId(r.entryId) + ".pdf"])
  {
    DefaultTargetInOutputDir(d, ToMetadata(r), None);
  }

  /** A plain custom name is used as given, inside the output directory. */
  lemma CustomNameTarget(d: ArXivDownloader, paper: PaperMetadata, name: string)
    requires Paths.IsName(name)
    ensures d.DownloadTarget(paper, Some(name))
         == Paths.Path(d.outputDir.absolute, d.outputDir.parts + [name])
  {
    Paths.DivPlainName(d.outputDir, name);
  }

  /** An absolute custom name is not confined to the output directory. */
  lemma AbsoluteNameTarget(d: ArXivDownloader, paper: PaperMetadata, name: string)
    requires |name| > 0 && name[0] == '/'
    ensures d.DownloadTarget(paper, Some(name)) == Paths.PathOf(name)
  {
    Paths.DivAbsoluteReplaces(d.outputDir, name);
  }
}
