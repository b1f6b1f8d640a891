/**
 * The action handlers of App.tsx: generating a study guide from the raw notes, committing
 * the generated Markdown to a GitHub repository, and saving the settings. The component's
 * state is a class whose fields the handlers update. The generator, the two GitHub requests
 * and the base64 encoder are outside the model: their outcomes are the handlers' inputs and
 * the requests issued are their outputs.
 */
module App {
  import opened Types
  import opened JsString

  /** The two editor tabs (`'editor' | 'preview'`). */
  datatype Tab = EditorTab | PreviewTab

  /** A value thrown by an awaited call: an `Error` with its message, or anything else. */
  datatype Thrown = ErrorObject(message: string) | OtherValue

  /** `error instanceof Error ? error.message : 'An unknown error occurred'`. */
  function ErrorMessage(e: Thrown): (m: string)
    ensures e.ErrorObject? ==> m == e.message
    ensures e.OtherValue? ==> m == "An unknown error occurred"
  {
    match e
    case ErrorObject(message) => message
    case OtherValue => "An unknown error occurred"
  }

  /** The call to the generator: the raw notes and the system instruction. */
  datatype GenerationRequest = GenerationRequest(contents: string, systemInstruction: string)

  /** How the awaited generator call ended. */
  datatype GenerationOutcome = Generated(text: string) | GenerationThrew(error: Thrown)

  /**
   * How the read of the existing file ended: the request or the JSON decoding threw, the
   * response was not ok, or it was ok and carried this `sha` field (absent or null is `None`).
   */
  datatype ReadOutcome = ReadThrew | ReadNotOk | ReadOk(sha: Option<string>)

  /**
   * How the write ended: ok, not ok with the `message` field of the error body (absent is
   * `None`), or a throw from the request or from decoding the error body.
   */
  datatype WriteOutcome = Written | Rejected(message: Option<string>) | WriteThrew(error: Thrown)

  /** The JSON body of the PUT; the `sha` field is present only when `sha` is `Some`. */
  datatype CommitBody = CommitBody(message: string, content: string, branch: string, sha: Option<string>)

  /** The two requests a commit sends, each with its `Authorization` header value. */
  datatype HttpRequest =
    | Get(url: string, authorization: string)
    | Put(url: string, authorization: string, body: CommitBody)

  // ---------------------------------------------------------------------------
  // Pure helpers of saveToGitHub

  /** The repository path: the file name without one leading `/`. */
  function RepoPath(fileName: string): (path: string)
    ensures path == fileName || "/" + path == fileName
  {
    if "/" <= fileName then fileName[1..] else fileName
  }

  /** Exactly one slash is stripped (`//a` becomes `/a`), and nothing from other names. */
  lemma RepoPathStripsOneSlash(p: string)
    ensures RepoPath("/" + p) == p
    ensures !("/" <= p) ==> RepoPath(p) == p
  {
  }

  const ApiRepos: string := "https://api.github.com/repos/"

  /** The contents endpoint of `path` in `owner/repo`. */
  function ContentsUrl(owner: string, repo: string, path: string): (url: string)
    ensures ApiRepos <= url
    ensures url[|ApiRepos|..] == owner + "/" + repo + "/contents/" + path
  {
    ApiRepos + owner + "/" + repo + "/contents/" + path
  }

  /** Cutting at the first `/`: a slash-free head is determined by the string. */
  lemma SlashSeparated(a: string, x: string, b: string, y: string)
    requires '/' !in a && '/' !in b
    ensures a + "/" + x == b + "/" + y ==> a == b && x == y
  {
    var s, t := a + "/" + x, b + "/" + y;
    if |a| < |b| {
      assert t[|a|] == b[|a|];
      assert s[|a|] == '/';
    } else if |b| < |a| {
      assert s[|b|] == a[|b|];
      assert t[|b|] == '/';
    } else if s == t {
      assert a == s[..|a|] && b == t[..|b|];
      assert x == s[|a| + 1..] && y == t[|b| + 1..];
    }
  }

  /**
   * The URL names its target: for owner and repository names without `/`, two equal URLs
   * have the same owner, repository and path.
   */
  lemma ContentsUrlIsInjective(o1: string, r1: string, p1: string, o2: string, r2: string, p2: string)
    requires '/' !in o1 && '/' !in r1 && '/' !in o2 && '/' !in r2
    ensures ContentsUrl(o1, r1, p1) == ContentsUrl(o2, r2, p2) ==> o1 == o2 && r1 == r2 && p1 == p2
  {
    var tail1, tail2 := "/contents/" + p1, "/contents/" + p2;
    assert ContentsUrl(o1, r1, p1)[|ApiRepos|..] == o1 + "/" + (r1 + tail1);
    assert ContentsUrl(o2, r2, p2)[|ApiRepos|..] == o2 + "/" + (r2 + tail2);
    SlashSeparated(o1, r1 + tail1, o2, r2 + tail2);
    assert r1 + tail1 == r1 + "/" + ("contents/" + p1);
    assert r2 + tail2 == r2 + "/" + ("contents/" + p2);
    SlashSeparated(r1, "contents/" + p1, r2, "contents/" + p2);
    assert p1 == ("contents/" + p1)[9..] && p2 == ("contents/" + p2)[9..];
  }

  const MessagePrefix: string := "docs: update "
  const MessageSuffix: string := " via CourseWeaver"

  /** The commit message, naming the file name as typed (before the slash is stripped). */
  function CommitMessage(fileName: string): (m: string)
    ensures |m| == |MessagePrefix| + |fileName| + |MessageSuffix|
    ensures MessagePrefix <= m
    ensures m[|m| - |MessageSuffix|..] == MessageSuffix
  {
    MessagePrefix + fileName + MessageSuffix
  }

  /** The file name a commit message was written for. */
  function MessageFileName(m: string): string
    requires |m| >= |MessagePrefix| + |MessageSuffix|
  {
    m[|MessagePrefix|..|m| - |MessageSuffix|]
  }

  /** The message names its file: reading the name back gives the file name. */
  lemma CommitMessageNamesFile(fileName: string)
    ensures MessageFileName(CommitMessage(fileName)) == fileName
  {
    var m := CommitMessage(fileName);
    assert m[|MessagePrefix|..|m| - |MessageSuffix|] == fileName;
  }

  /** The `sha` variable after the read: the field of an ok response, `null` otherwise. */
  function ShaAfterRead(read: ReadOutcome): (sha: Option<string>)
    ensures !read.ReadOk? ==> sha == None
    ensures read.ReadOk? ==> sha == read.sha
  {
    if read.ReadOk? then read.sha else None
  }

  /** The PUT body: the `sha` field is set exactly when the read found a non-empty sha. */
  function BuildBody(fileName: string, encoded: string, branch: string, sha: Option<string>): (body: CommitBody)
    ensures body.message == CommitMessage(fileName)
    ensures body.content == encoded && body.branch == branch
    ensures body.sha.Some? <==> sha.Some? && sha.value != ""
    ensures body.sha.Some? ==> body.sha == sha
  {
    var base := CommitBody(CommitMessage(fileName), encoded, branch, None);
    if sha.Some? && sha.value != "" then base.(sha := sha) else base
  }

  /**
   * The body updates the existing file exactly when the read succeeded with a non-empty
   * sha; a failed or rejected read makes the PUT a creation, never an error.
   */
  lemma BodyShaComesFromRead(fileName: string, encoded: string, branch: string, read: ReadOutcome)
    ensures BuildBody(fileName, encoded, branch, ShaAfterRead(read)).sha.Some? <==>
              read.ReadOk? && read.sha.Some? && read.sha.value != ""
    ensures read.ReadThrew? || read.ReadNotOk? ==> BuildBody(fileName, encoded, branch, ShaAfterRead(read)).sha == None
  {
  }

  // ---------------------------------------------------------------------------
  // Status banners

  const NeedContent := StatusMessage(Error, "Please enter some content to process.")
  const Weaving := StatusMessage(Info, "Weaving course content...")
  const GenerationDone := StatusMessage(Success, "Content generated successfully!")
  const NeedSettings := StatusMessage(Error, "Please configure GitHub settings first.")
  const NothingToSave := StatusMessage(Error, "No content to save.")
  const Committing := StatusMessage(Info, "Committing to GitHub...")
  const Saved := StatusMessage(Success, "Successfully saved to GitHub!")
  const SettingsSaved := StatusMessage(Success, "Settings saved locally.")

  /** The banner a failed generation shows. */
  function GenerationFailed(e: Thrown): (m: StatusMessage)
    ensures m.kind == Error
    ensures m.text == "Generation failed: " + ErrorMessage(e)
  {
    StatusMessage(Error, "Generation failed: " + ErrorMessage(e))
  }

  /** Prefix of every failed-save banner. */
  const SaveFailed := "GitHub Save Failed: "

  /** What a rejected write reports when the server gave no message. */
  const CommitFallback := "Failed to commit to GitHub"

  /** The message thrown for a rejected write: the server's, unless it is empty or absent. */
  function RejectionMessage(message: Option<string>): (m: string)
    ensures m != ""
    ensures message.Some? && message.value != "" ==> m == message.value
    ensures message.None? || message.value == "" ==> m == CommitFallback
  {
    if message.Some? && message.value != "" then message.value else CommitFallback
  }

  /**
   * The banner after the write: success exactly when the write was ok; otherwise an error
   * naming the server's message, the fallback, or the thrown error's message.
   */
  function SaveResult(write: WriteOutcome): (m: StatusMessage)
    ensures m.kind == Success <==> write.Written?
    ensures m.kind == Success ==> m == Saved
    ensures write.Rejected? ==> m == StatusMessage(Error, SaveFailed + RejectionMessage(write.message))
    ensures write.WriteThrew? ==> m == StatusMessage(Error, SaveFailed + ErrorMessage(write.error))
  {
    match write
    case Written => Saved
    case Rejected(message) => StatusMessage(Error, SaveFailed + RejectionMessage(message))
    case WriteThrew(e) => StatusMessage(Error, SaveFailed + ErrorMessage(e))
  }

  /** An empty server message and an absent one give the same banner. */
  lemma EmptyRejectionUsesFallback()
    ensures SaveResult(Rejected(Some(""))) == SaveResult(Rejected(None))
    ensures SaveResult(Rejected(None)).text == SaveFailed + CommitFallback
  {
  }

  const DefaultSystemPrompt: string :=
    "You are an expert educational content creator. Convert the provided raw course notes or slide content "
    + "into a detailed, pedagogical study guide in Markdown format.\n"
    + "\n"
    + "1. Structure: Use clear # and ## headings.\n"
    + "2. Expansion: Convert bullet points into comprehensive, readable paragraphs.\n"
    + "3. Equations: Format all math in LaTeX style using $ for inline and $$ for blocks.\n"
    + "4. Tone: Academic yet accessible. Define jargon.\n"
    + "5. Figures: Indicate where figures should go with [Figure: Description].\n"
    + "6. Summary: End with key takeaways."

  // ---------------------------------------------------------------------------
  // The component state and its handlers

  class Controller {
    var rawContent: string
    var generatedContent: string
    var fileName: string
    var activeTab: Tab
    var config: AppConfig
    var isSettingsOpen: bool
    var isGenerating: bool
    var isSaving: bool
    var statusMsg: StatusMessage

    /** The state on first render, before any saved settings are loaded. */
    constructor ()
      ensures rawContent == "" && generatedContent == "" && fileName == "chapter_draft.md"
      ensures activeTab == EditorTab
      ensures config == AppConfig("", "", "", "main", DefaultSystemPrompt)
      ensures !isSettingsOpen && !isGenerating && !isSaving
      ensures statusMsg == StatusMessage(Blank, "")
    {
      rawContent := "";
      generatedContent := "";
      fileName := "chapter_draft.md";
      activeTab := EditorTab;
      config := AppConfig("", "", "", "main", DefaultSystemPrompt);
      isSettingsOpen := false;
      isGenerating := false;
      isSaving := false;
      statusMsg := StatusMessage(Blank, "");
    }

    /**
     * handleSaveConfig: stores the settings, confirms, closes the panel. The settings
     * themselves are not changed; `stored` is what is written to local storage.
     */
    method HandleSaveConfig() returns (stored: AppConfig)
      modifies this
      ensures stored == config == old(config)
      ensures statusMsg == SettingsSaved
      ensures !isSettingsOpen
      ensures rawContent == old(rawContent) && generatedContent == old(generatedContent)
      ensures fileName == old(fileName) && activeTab == old(activeTab)
      ensures isGenerating == old(isGenerating) && isSaving == old(isSaving)
    {
      stored := config;
      statusMsg := SettingsSaved;
      isSettingsOpen := false;
    }

    /**
     * handleGenerateContent with the generator ending as `outcome`. `calls` are the generator
     * calls made and `statuses` the banners shown, in order. Blank notes are refused with no
     * call and no other change. Otherwise the flag is raised and lowered around one call;
     * success stores the text and shows the preview, failure leaves both as they were.
     */
    method HandleGenerateContent(outcome: GenerationOutcome)
      returns (calls: seq<GenerationRequest>, statuses: seq<StatusMessage>)
      modifies this
      ensures AllSpace(old(rawContent)) ==>
                calls == [] && statuses == [NeedContent] && statusMsg == NeedContent
                && isGenerating == old(isGenerating)
                && generatedContent == old(generatedContent) && activeTab == old(activeTab)
      ensures !AllSpace(old(rawContent)) ==>
                calls == [GenerationRequest(old(rawContent), old(config).systemPrompt)]
                && statuses == [Weaving, statusMsg]
                && !isGenerating
      ensures !AllSpace(old(rawContent)) && outcome.Generated? ==>
                generatedContent == outcome.text && activeTab == PreviewTab && statusMsg == GenerationDone
      ensures !AllSpace(old(rawContent)) && outcome.GenerationThrew? ==>
                generatedContent == old(generatedContent) && activeTab == old(activeTab)
                && statusMsg == GenerationFailed(outcome.error)
      ensures rawContent == old(rawContent) && fileName == old(fileName) && config == old(config)
      ensures isSettingsOpen == old(isSettingsOpen) && isSaving == old(isSaving)
    {
      // `!rawContent.trim()`: by the contract of Trim, the trimmed text is empty exactly when all of it is white space.
      if AllSpace(rawContent) {
        statusMsg := NeedContent;
        calls, statuses := [], [statusMsg];
        return;
      }
      calls, statuses := RunGeneration(outcome);
    }

    /** The part of handleGenerateContent after the blank-notes guard. */
    method RunGeneration(outcome: GenerationOutcome)
      returns (calls: seq<GenerationRequest>, statuses: seq<StatusMessage>)
      modifies this
      ensures calls == [GenerationRequest(old(rawContent), old(config).systemPrompt)]
      ensures statuses == [Weaving, statusMsg] && !isGenerating
      ensures outcome.Generated? ==>
                generatedContent == outcome.text && activeTab == PreviewTab && statusMsg == GenerationDone
      ensures outcome.GenerationThrew? ==>
                generatedContent == old(generatedContent) && activeTab == old(activeTab)
                && statusMsg == GenerationFailed(outcome.error)
      ensures rawContent == old(rawContent) && fileName == old(fileName) && config == old(config)
      ensures isSettingsOpen == old(isSettingsOpen) && isSaving == old(isSaving)
    {
      isGenerating := true;
      statusMsg := Weaving;
      statuses := [statusMsg];
      calls := [GenerationRequest(rawContent, config.systemPrompt)];
      match outcome {
        case Generated(text) =>
          generatedContent := text;
          statusMsg := GenerationDone;
          activeTab := PreviewTab;
        case GenerationThrew(e) =>
          statusMsg := GenerationFailed(e);
      }
      statuses := statuses + [statusMsg];
      isGenerating := false;
    }

    /**
     * saveToGitHub with the read ending as `read`, the write as `write`, and `encode` as the
     * content encoder. Missing settings are refused first (opening the panel), then blank
     * content; neither sends a request or touches the flag. Otherwise a GET and a PUT go to
     * the same contents URL, the PUT carrying the sha only when the read found one, and the
     * final banner depends on the write alone.
     */
    method SaveToGitHub(encode: string -> string, read: ReadOutcome, write: WriteOutcome)
      returns (requests: seq<HttpRequest>, statuses: seq<StatusMessage>)
      modifies this
      ensures var c := old(config);
              c.githubToken == "" || c.githubOwner == "" || c.githubRepo == "" ==>
                requests == [] && statuses == [NeedSettings] && statusMsg == NeedSettings
                && isSettingsOpen && isSaving == old(isSaving)
      ensures var c := old(config);
              c.githubToken != "" && c.githubOwner != "" && c.githubRepo != "" && AllSpace(old(generatedContent)) ==>
                requests == [] && statuses == [NothingToSave] && statusMsg == NothingToSave
                && isSettingsOpen == old(isSettingsOpen) && isSaving == old(isSaving)
      ensures var c := old(config);
              c.githubToken != "" && c.githubOwner != "" && c.githubRepo != "" && !AllSpace(old(generatedContent)) ==>
                var url := ContentsUrl(c.githubOwner, c.githubRepo, RepoPath(old(fileName)));
                var auth := "token " + c.githubToken;
                requests == [Get(url, auth),
                             Put(url, auth, BuildBody(old(fileName), encode(old(generatedContent)), c.githubBranch, ShaAfterRead(read)))]
                && statuses == [Committing, SaveResult(write)] && statusMsg == SaveResult(write)
                && isSettingsOpen == old(isSettingsOpen) && !isSaving
      ensures rawContent == old(rawContent) && generatedContent == old(generatedContent)
      ensures fileName == old(fileName) && activeTab == old(activeTab) && config == old(config)
      ensures isGenerating == old(isGenerating)
    {
      if config.githubToken == "" || config.githubOwner == "" || config.githubRepo == "" {
        statusMsg := NeedSettings;
        isSettingsOpen := true;
        requests, statuses := [], [statusMsg];
        return;
      }
      // `!generatedContent.trim()`, as in HandleGenerateContent.
      if AllSpace(generatedContent) {
        statusMsg := NothingToSave;
        requests, statuses := [], [statusMsg];
        return;
      }
      requests, statuses := Commit(encode, read, write);
    }

    /** The part of saveToGitHub after both guards: the read, the write and the banners. */
    method Commit(encode: string -> string, read: ReadOutcome, write: WriteOutcome)
      returns (requests: seq<HttpRequest>, statuses: seq<StatusMessage>)
      modifies this
      ensures var c := old(config);
              var url := ContentsUrl(c.githubOwner, c.githubRepo, RepoPath(old(fileName)));
              var auth := "token " + c.githubToken;
              requests == [Get(url, auth),
                           Put(url, auth, BuildBody(old(fileName), encode(old(generatedContent)), c.githubBranch, ShaAfterRead(read)))]
      ensures statuses == [Committing, SaveResult(write)] && statusMsg == SaveResult(write) && !isSaving
      ensures isSettingsOpen == old(isSettingsOpen)
      ensures rawContent == old(rawContent) && generatedContent == old(generatedContent)
      ensures fileName == old(fileName) && activeTab == old(activeTab) && config == old(config)
      ensures isGenerating == old(isGenerating)
    {
      isSaving := true;
      statusMsg := Committing;
      statuses := [statusMsg];

      var path := RepoPath(fileName);
      var url := ContentsUrl(config.githubOwner, config.githubRepo, path);
      var auth := "token " + config.githubToken;
      var sha: Option<string> := None;
      match read {
        case ReadOk(found) => sha := found;
        case ReadThrew =>
        case ReadNotOk =>
      }
      assert sha == ShaAfterRead(read);
      requests := [Get(url, auth)];

      var body := CommitBody(CommitMessage(fileName), encode(generatedContent), config.githubBranch, None);
      if sha.Some? && sha.value != "" {
        body := body.(sha := sha);
      }
      assert body == BuildBody(fileName, encode(generatedContent), config.githubBranch, sha);
      requests := requests + [Put(url, auth, body)];

      match write {
        case Written =>
          statusMsg := Saved;
        case Rejected(message) =>
          statusMsg := StatusMessage(Error, SaveFailed + RejectionMessage(message));
        case WriteThrew(e) =>
          statusMsg := StatusMessage(Error, SaveFailed + ErrorMessage(e));
      }
      assert statusMsg == SaveResult(write);
      statuses := statuses + [statusMsg];
      isSaving := false;
    }
  }
}
