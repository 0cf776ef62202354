/**
 * The HTTP handlers of the backend: ingesting a PDF or a GitHub repository
 * into the store (each one resets it first), answering a question, and the
 * debug listing. The HTTP layer, the PDF reader, the GitHub REST calls, the
 * chunker and the chat model are parameters.
 */
module Api {
  import opened Wrappers
  import opened Builtins
  import opened Retrieval
  import opened Rag

  /** A handler's JSON reply, or the exception that escapes it. */
  datatype Reply =
    | Rejected(error: string)
    | Indexed(status: string, summary: string)
    | Raised(exception: string)

  const InvalidUrlMessage: string := "Invalid GitHub URL"
  const GithubSource: string := "github"
  const PdfSource: string := "PDF"
  /** The `top_k` that `/ask` uses. */
  const DefaultTopK: nat := 5
  /** Characters of each text shown by `/debug`. */
  const PreviewChars: nat := 200

  /** The fields of the repository JSON that are read: the description, absent or null as None. */
  datatype RepoMeta = RepoMeta(description: Option<string>)

  /** One element of the issues JSON list. */
  datatype Issue = Issue(hasPullRequestKey: bool, title: Option<string>, body: Option<string>)

  /**
   * What the three GitHub requests yield: each is None when its status is not
   * 200; the README is already base64-decoded.
   */
  datatype GitHubData = GitHubData(repo: Option<RepoMeta>, readme: Option<string>, issues: Option<seq<Issue>>)

  /**
   * `repo_url` is non-empty and mentions github.com; the emptiness test is
   * implied by the second one.
   */
  predicate IsGithubUrl(url: string): (ok: bool)
    ensures ok <==> exists i :: 0 <= i <= |url| && OccursAt(url, "github.com", i)
  {
    url != "" && Contains(url, "github.com")
  }

  /**
   * `parts = url.rstrip("/").split("/"); parts[-2], parts[-1]`: owner and repo
   * are the last two slash-separated segments once the trailing slashes are
   * gone: `owner + "/" + repo` ends the trimmed URL, preceded by a slash or by
   * nothing. Fewer than two segments raise IndexError. The repo segment is
   * never empty and neither segment holds a slash.
   */
  function OwnerRepo(url: string): (r: Result<(string, string), string>)
    ensures r.Failure? <==> '/' !in RStrip(url, '/')
    ensures r.Failure? ==> r.error == "IndexError"
    ensures r.Success? ==> '/' !in r.value.0 && '/' !in r.value.1 && r.value.1 != ""
    ensures r.Success? ==>
      var t, tail := RStrip(url, '/'), r.value.0 + "/" + r.value.1;
      OccursAt(t, tail, |t| - |tail|) && (|t| == |tail| || t[|t| - |tail| - 1] == '/')
  {
    var trimmed := RStrip(url, '/');
    var parts := Split(trimmed, '/');
    SplitSingle(trimmed, '/');
    if |parts| < 2 then Failure("IndexError")
    else
      SplitJoin(trimmed, '/');
      LastTwoParts(parts, '/');
      Success((parts[|parts| - 2], parts[|parts| - 1]))
  }

  /**
   * The last two parts, with the separator between them, end the joined
   * string, and are preceded there by a separator or by nothing.
   */
  lemma LastTwoParts(parts: seq<string>, sep: char)
    requires |parts| >= 2
    ensures var j, tail := Join(parts, [sep]), parts[|parts| - 2] + [sep] + parts[|parts| - 1];
      OccursAt(j, tail, |j| - |tail|) && (|j| == |tail| || j[|j| - |tail| - 1] == sep)
  {
    var n := |parts|;
    var tail := parts[n - 2] + [sep] + parts[n - 1];
    var j := Join(parts, [sep]);
    if n == 2 {
      JoinSnoc([parts[0]], parts[1], [sep]);
      assert parts == [parts[0]] + [parts[1]];
    } else {
      var init := parts[..n - 2];
      JoinSnoc(init, parts[n - 2], [sep]);
      assert parts[..n - 1] == init + [parts[n - 2]];
      var pre := Join(init, [sep]) + [sep];
      assert j == pre + tail;
      assert j[|pre|..] == tail;
      assert j[|pre| - 1] == sep;
    }
  }

  /**
   * For a URL `prefix + owner + "/" + repo` followed by any number of slashes,
   * where prefix is empty or ends in a slash, owner is slash-free (possibly
   * empty) and repo is slash-free and non-empty, the extracted pair is
   * (owner, repo): the last two segments of the URL without its trailing
   * slashes. With an empty prefix (`"github.com/foo"`) the owner is the
   * segment before the only slash.
   */
  lemma OwnerRepoOfUrl(prefix: string, owner: string, repo: string, slashes: nat)
    requires repo != "" && '/' !in owner && '/' !in repo
    requires prefix == "" || prefix[|prefix| - 1] == '/'
    ensures OwnerRepo(prefix + owner + "/" + repo + Repeat('/', slashes)) == Success((owner, repo))
  {
    var url := prefix + owner + "/" + repo + Repeat('/', slashes);
    var head := prefix + owner;
    var core := head + "/" + repo;
    assert core[|core| - 1] == repo[|repo| - 1];
    RStripRun(core, '/', slashes);
    assert url == core + Repeat('/', slashes);
    SplitSnoc(head, repo, '/');
    if prefix == "" {
      assert head == owner;
      SplitSingle(owner, '/');
      SplitJoin(owner, '/');
      assert Split(head, '/') == [owner];
    } else {
      var front := prefix[..|prefix| - 1];
      assert head == front + ['/'] + owner;
      SplitSnoc(front, owner, '/');
    }
    OwnerRepoOfParts(url);
  }

  /** With at least two segments, the pair is the last two of them. */
  lemma OwnerRepoOfParts(url: string)
    requires |Split(RStrip(url, '/'), '/')| >= 2
    ensures var parts := Split(RStrip(url, '/'), '/');
      OwnerRepo(url) == Success((parts[|parts| - 2], parts[|parts| - 1]))
  {
  }

  /** `(title or "") + "\n" + (body or "")`. */
  function IssueText(issue: Issue): (t: string)
    ensures var title, body := OrEmpty(issue.title), OrEmpty(issue.body);
      |t| == |title| + 1 + |body| && t[..|title|] == title && t[|title|] == '\n' && t[|title| + 1..] == body
  {
    OrEmpty(issue.title) + "\n" + OrEmpty(issue.body)
  }

  /** An issue contributes a text when it is not a pull request and its text is not blank. */
  predicate KeepsIssue(issue: Issue): (ok: bool)
    ensures ok <==> (!issue.hasPullRequestKey &&
                     !(IsBlank(OrEmpty(issue.title)) && IsBlank(OrEmpty(issue.body))))
  {
    BlankIssueText(OrEmpty(issue.title), OrEmpty(issue.body));
    !issue.hasPullRequestKey && !IsBlank(IssueText(issue))
  }

  /** The joined issue text is blank exactly when both title and body are. */
  lemma BlankIssueText(title: string, body: string)
    ensures IsBlank(title + "\n" + body) <==> IsBlank(title) && IsBlank(body)
  {
    var t := title + "\n" + body;
    assert IsSpace('\n');
    assert forall i :: 0 <= i < |title| ==> t[i] == title[i];
    assert forall i :: 0 <= i < |body| ==> t[|title| + 1 + i] == body[i];
    if IsBlank(title) && IsBlank(body) {
      forall i | 0 <= i < |t| ensures IsSpace(t[i]) {
        if i < |title| {
        } else if i == |title| {
        } else {
          assert t[i] == body[i - |title| - 1];
        }
      }
    }
  }

  /** The texts of the kept issues, in API order. */
  function IssueTexts(items: seq<Issue>): seq<string> {
    FilterMap(items, KeepsIssue, IssueText)
  }

  /**
   * The issue texts are exactly the texts of the kept issues, in API order:
   * the k-th text is that of issue pos[k], the positions increase, and every
   * kept issue (not a pull request, text not blank) has its position in pos.
   */
  lemma IssueTextsSelect(items: seq<Issue>) returns (pos: seq<nat>)
    ensures |pos| == |IssueTexts(items)|
    ensures forall k :: 0 <= k < |pos| ==>
      pos[k] < |items| && KeepsIssue(items[pos[k]]) && IssueTexts(items)[k] == IssueText(items[pos[k]])
    ensures forall k, l :: 0 <= k < l < |pos| ==> pos[k] < pos[l]
    ensures forall p :: 0 <= p < |items| && KeepsIssue(items[p]) ==> p in pos
  {
    pos := FilterMapSelect(items, KeepsIssue, IssueText);
  }

  /** The description, when the repository request succeeded and it is non-empty. */
  function DescriptionTexts(repo: Option<RepoMeta>): seq<string> {
    if repo.Some? && repo.value.description.Some? && repo.value.description.value != ""
    then [repo.value.description.value] else []
  }

  /** The README, when its request succeeded. */
  function ReadmeTexts(readme: Option<string>): seq<string> {
    if readme.Some? then [readme.value] else []
  }

  /**
   * The repository texts: the description when there is a non-empty one,
   * then the README when fetched, then the kept issues in API order; at most
   * two texts more than there are issues.
   */
  function RepoTexts(data: GitHubData): (texts: seq<string>)
    ensures |texts| <= 2 + (if data.issues.Some? then |data.issues.value| else 0)
    ensures data.repo.Some? && data.repo.value.description.Some? && data.repo.value.description.value != "" ==>
      |texts| >= 1 && texts[0] == data.repo.value.description.value
    ensures data.readme.Some? ==>
      |texts| > |DescriptionTexts(data.repo)| && texts[|DescriptionTexts(data.repo)|] == data.readme.value
  {
    DescriptionTexts(data.repo) + ReadmeTexts(data.readme)
    + (if data.issues.Some? then IssueTexts(data.issues.value) else [])
  }

  /** `bool(t.strip())`: true exactly when t holds a non-whitespace character. */
  method StripsToText(t: string) returns (nonBlank: bool)
    ensures nonBlank <==> !IsBlank(t)
  {
    StripEmptyIffBlank(t);
    nonBlank := Strip(t) != "";
  }

  /**
   * The issue loop of `github`: skips pull requests and issues whose text
   * strips to nothing, and appends the text of every other issue.
   */
  method CollectIssueTexts(items: seq<Issue>) returns (texts: seq<string>)
    ensures texts == IssueTexts(items)
  {
    texts := [];
    for i := 0 to |items|
      invariant texts == IssueTexts(items[..i])
    {
      var issue := items[i];
      FilterMapSnoc(items, KeepsIssue, IssueText, i);
      if !issue.hasPullRequestKey {
        var t := OrEmpty(issue.title) + "\n" + OrEmpty(issue.body);
        assert t == IssueText(issue);
        var nonBlank := StripsToText(t);
        if nonBlank {
          texts := texts + [t];
        }
      }
    }
    assert items[..|items|] == items;
  }

  /**
   * The part of `github` that collects the texts: the description if there
   * is one, the README, then the texts of the kept issues.
   */
  method CollectTexts(data: GitHubData) returns (texts: seq<string>)
    ensures texts == RepoTexts(data)
  {
    texts := [];
    if data.repo.Some? {
      var desc := OrEmpty(data.repo.value.description);
      if desc != "" {
        texts := texts + [desc];
      }
    }
    if data.readme.Some? {
      texts := texts + [data.readme.value];
    }
    if data.issues.Some? {
      var issueTexts := CollectIssueTexts(data.issues.value);
      texts := texts + issueTexts;
    }
  }

  /**
   * `POST /github`: resets the store before anything else; rejects a URL that
   * is empty or does not mention github.com; raises IndexError when the URL
   * has fewer than two segments; otherwise stores the summary of the joined
   * repository texts followed by their chunks, all tagged "github".
   */
  method Github(store: Store, repoUrl: string, fetch: (string, string) -> GitHubData,
                chunk: string -> seq<string>, chat: string -> string) returns (reply: Reply)
    modifies store
    ensures store.Valid()
    ensures !IsGithubUrl(repoUrl) ==> reply == Rejected(InvalidUrlMessage) && store.docs == []
    ensures IsGithubUrl(repoUrl) && OwnerRepo(repoUrl).Failure? ==>
      reply == Raised("IndexError") && store.docs == []
    ensures IsGithubUrl(repoUrl) && OwnerRepo(repoUrl).Success? ==>
      var owner, repo := OwnerRepo(repoUrl).value.0, OwnerRepo(repoUrl).value.1;
      var fullText := Join(RepoTexts(fetch(owner, repo)), BlockSeparator);
      var summary := Summarize(fullText, SummaryChars, chat);
      reply == Indexed("GitHub indexed", summary) &&
      store.docs == Tagged([summary] + chunk(fullText), GithubSource)
  {
    store.Reset();
    if repoUrl == "" || !Contains(repoUrl, "github.com") {
      return Rejected(InvalidUrlMessage);
    }
    var parsed := OwnerRepo(repoUrl);
    if parsed.Failure? {
      return Raised(parsed.error);
    }
    var owner, repo := parsed.value.0, parsed.value.1;
    var texts := CollectTexts(fetch(owner, repo));
    var fullText := Join(texts, BlockSeparator);
    var summary := Summarize(fullText, SummaryChars, chat);
    var chunks := chunk(fullText);
    chunks := [summary] + chunks;
    var added := store.AddDocuments(chunks, GithubSource);
    assert added;
    reply := Indexed("GitHub indexed", summary);
  }

  /**
   * `"".join([p.extract_text() or "" for p in pages])`: empty exactly when no
   * page has any extracted text.
   */
  function PdfText(pages: seq<Option<string>>): (text: string)
    ensures text == "" <==> forall k :: 0 <= k < |pages| ==> OrEmpty(pages[k]) == ""
    decreases |pages|
  {
    if pages == [] then "" else PdfText(pages[..|pages| - 1]) + OrEmpty(pages[|pages| - 1])
  }

  /** The text of a document is the text of its first pages followed by that of the rest. */
  lemma {:induction false} PdfTextAppend(front: seq<Option<string>>, back: seq<Option<string>>)
    ensures PdfText(front + back) == PdfText(front) + PdfText(back)
    decreases |back|
  {
    if back != [] {
      var n := |back| - 1;
      assert (front + back)[..|front + back| - 1] == front + back[..n];
      PdfTextAppend(front, back[..n]);
    } else {
      assert front + back == front;
    }
  }

  /** A page without extractable text contributes nothing; one with text contributes exactly it. */
  lemma PdfTextPage(page: Option<string>)
    ensures PdfText([page]) == OrEmpty(page)
  {
    assert [page][..0] == [];
  }

  /**
   * `POST /upload_pdf`: resets the store, then stores the summary of the
   * concatenated page texts followed by their chunks, all tagged "PDF".
   */
  method UploadPdf(store: Store, pages: seq<Option<string>>,
                   chunk: string -> seq<string>, chat: string -> string) returns (reply: Reply)
    modifies store
    ensures store.Valid()
    ensures reply == Indexed("PDF indexed", Summarize(PdfText(pages), SummaryChars, chat))
    ensures store.docs == Tagged([reply.summary] + chunk(PdfText(pages)), PdfSource)
  {
    store.Reset();
    var fullText := PdfText(pages);
    var summary := Summarize(fullText, SummaryChars, chat);
    var chunks := chunk(fullText);
    chunks := [summary] + chunks;
    var added := store.AddDocuments(chunks, PdfSource);
    reply := Indexed("PDF indexed", summary);
  }

  /** `POST /ask`: `ask(question)` with no source filter and the default top_k. */
  method Query(store: Store, question: string, search: nat -> seq<Hit>, chat: string -> string)
    returns (r: AskReply)
    requires store.Valid()
    requires store.docs != [] ==> SearchContract(search, Min(2 * DefaultTopK, |store.docs|), store.indexSize)
    ensures r == AskSpec(store.docs, question, None, DefaultTopK, search, chat)
  {
    r := store.Ask(question, None, DefaultTopK, search, chat);
  }

  /** One entry of the debug listing. */
  datatype Preview = Preview(source: string, textPreview: string)

  /** The reply of `GET /debug`. */
  datatype DebugReply = DebugReply(totalDocs: nat, docs: seq<Preview>)

  /**
   * `GET /debug`: the number of docs and, per doc in store order, its source
   * and the first 200 characters of its text.
   */
  function Debug(store: Store): (r: DebugReply)
    reads store
    ensures r.totalDocs == |r.docs| == |store.docs|
    ensures forall k :: 0 <= k < |r.docs| ==>
      r.docs[k].source == store.docs[k].source &&
      r.docs[k].textPreview <= store.docs[k].text &&
      |r.docs[k].textPreview| == Min(PreviewChars, |store.docs[k].text|)
  {
    var ds := store.docs;
    DebugReply(|ds|, seq(|ds|, k requires 0 <= k < |ds| => Preview(ds[k].source, Prefix(ds[k].text, PreviewChars))))
  }
}
