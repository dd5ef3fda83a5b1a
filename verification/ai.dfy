/** The message generator: the prompt template, the choice of provider by
    name, and the provider's call, with the HTTP exchange as a parameter. */
module Ai {
  import opened Results
  import opened Text
  import opened Config

  const PromptHead: string :=
    "Analyze the following Git diff and generate a concise, informative commit message that describes the changes:\n\n"

  /** The closed set of Conventional Commits types the prompt offers. */
  const CommitTypes: seq<string> := ["feat", "fix", "docs", "style", "refactor", "perf", "test", "chore"]

  /** `", ".join(types)`. */
  function Join(types: seq<string>): string {
    if |types| == 0 then ""
    else if |types| == 1 then types[0]
    else types[0] + ", " + Join(types[1..])
  }

  /** "feat, fix, docs, style, refactor, perf, test, chore". */
  const TypeList: string := Join(CommitTypes)

  const FinalAsk: string := "Commit message:"

  const ConventionalLead: string :=
    "Use the Conventional Commits format (type(scope): description).\n"
    + "Choose the most appropriate type from: "

  const ConventionalRest: string :=
    ".\n" + "Ensure the first line is no more than 72 characters.\n" + FinalAsk

  const ConventionalTail: string := ConventionalLead + TypeList + ConventionalRest

  const PlainTail: string := "Commit message (concise, present tense, less than 72 characters):"

  /** The instructions after the diff: the Conventional Commits ones only
      for a style equal to the string "conventional", exactly. */
  function StyleTail(style: Val): string {
    if style == Str("conventional") then ConventionalTail else PlainTail
  }

  /** What follows the diff: a blank line, then the style's instructions. */
  function Tail(style: Val): string {
    "\n\n" + StyleTail(style)
  }

  /** The prompt: the fixed request, the diff verbatim, a blank line, and
      the style's instructions. */
  function CreateCommitPrompt(diff: string, style: Val): (r: string)
    ensures |r| == |PromptHead| + |diff| + |Tail(style)|
    ensures r[..|PromptHead|] == PromptHead
    ensures r[|PromptHead|..|PromptHead| + |diff|] == diff
    ensures r[|PromptHead| + |diff|..] == Tail(style)
  {
    ThreeParts(PromptHead, diff, Tail(style));
    PromptHead + diff + Tail(style)
  }

  /** Recover the diff from a prompt built with `style`, if it is one. */
  function DiffOfPrompt(prompt: string, style: Val): Option<string> {
    var tail := Tail(style);
    if |prompt| >= |PromptHead| + |tail|
      && prompt[..|PromptHead|] == PromptHead
      && prompt[|prompt| - |tail|..] == tail
    then Some(prompt[|PromptHead|..|prompt| - |tail|])
    else None
  }

  /** The diff is embedded verbatim: for a fixed style it can be read back
      out of the prompt, so distinct diffs give distinct prompts. */
  lemma PromptRoundTrip(diff: string, style: Val)
    ensures DiffOfPrompt(CreateCommitPrompt(diff, style), style) == Some(diff)
  {
  }

  lemma PromptInjective(d1: string, d2: string, style: Val)
    requires CreateCommitPrompt(d1, style) == CreateCommitPrompt(d2, style)
    ensures d1 == d2
  {
    PromptRoundTrip(d1, style);
    PromptRoundTrip(d2, style);
  }

  /** Every joined item occurs in the joined text. */
  lemma {:induction false} JoinContains(types: seq<string>, i: nat)
    requires i < |types|
    ensures Contains(Join(types), types[i])
    decreases |types|
  {
    if |types| == 1 {
      ContainsInConcat("", types[0], "");
      assert "" + types[0] + "" == types[0];
    } else if i == 0 {
      ContainsInConcat("", types[0], ", " + Join(types[1..]));
      assert "" + types[0] + (", " + Join(types[1..])) == Join(types);
    } else {
      JoinContains(types[1..], i - 1);
      ContainsGrows(types[0] + ", ", Join(types[1..]), "", types[i]);
      assert types[0] + ", " + Join(types[1..]) + "" == Join(types);
    }
  }

  /** A word inside the middle part of the instructions occurs in the
      whole prompt. */
  lemma OccursInInstructions(head: string, diff: string, sep: string, lead: string, list: string,
                             rest: string, t: string, j: int)
    requires OccursAt(list, t, j)
    ensures Contains(head + diff + (sep + (lead + list + rest)), t)
  {
    var tail := sep + (lead + list + rest);
    ThreeParts(lead, list, rest);
    OccursTrans(lead + list + rest, list, |lead|, t, j);
    ThreeParts(sep, lead + list + rest, "");
    assert sep + (lead + list + rest) + "" == tail;
    OccursTrans(tail, lead + list + rest, |sep|, t, |lead| + j);
    ThreeParts(head, diff, tail);
    OccursTrans(head + diff + tail, tail, |head| + |diff|, t, |sep| + |lead| + j);
  }

  /** The conventional prompt names every allowed type. */
  lemma ConventionalPromptNamesTypes(diff: string, t: string)
    requires t in CommitTypes
    ensures Contains(CreateCommitPrompt(diff, Str("conventional")), t)
  {
    var i :| 0 <= i < |CommitTypes| && CommitTypes[i] == t;
    JoinContains(CommitTypes, i);
    var j :| OccursAt(TypeList, t, j);
    OccursInInstructions(PromptHead, diff, "\n\n", ConventionalLead, TypeList, ConventionalRest, t, j);
  }

  /** Whatever the style, the prompt contains the diff. */
  lemma PromptEmbedsDiff(diff: string, style: Val)
    ensures Contains(CreateCommitPrompt(diff, style), diff)
  {
    assert OccursAt(CreateCommitPrompt(diff, style), diff, |PromptHead|);
  }

  /** The conventional prompt ends by asking for the commit message. */
  lemma ConventionalPromptEndsWithAsk(diff: string)
    ensures EndsWith(CreateCommitPrompt(diff, Str("conventional")), FinalAsk)
  {
    var p := CreateCommitPrompt(diff, Str("conventional"));
    var rest := ".\n" + "Ensure the first line is no more than 72 characters.\n";
    EndsWithConcat(rest, FinalAsk);
    EndsWithConcat(ConventionalLead + TypeList, ConventionalRest);
    EndsWithTrans(ConventionalTail, ConventionalRest, FinalAsk);
    EndsWithConcat("\n\n", ConventionalTail);
    EndsWithTrans(Tail(Str("conventional")), ConventionalTail, FinalAsk);
    assert EndsWith(p, Tail(Str("conventional")));
    EndsWithTrans(p, Tail(Str("conventional")), FinalAsk);
  }

  /** Any other style, including a different capitalisation of
      "conventional" or a value that is not a string, gets the plain
      instructions. */
  lemma OtherStylesArePlain(diff: string, style: Val)
    requires style != Str("conventional")
    ensures CreateCommitPrompt(diff, style) == PromptHead + diff + ("\n\n" + PlainTail)
    ensures CreateCommitPrompt(diff, Str("Conventional")) == PromptHead + diff + ("\n\n" + PlainTail)
  {
    assert "Conventional" != "conventional" by {
      assert "Conventional"[0] != "conventional"[0];
    }
  }

  const ApiUrl: string := "https://api.openai.com/v1/chat/completions"

  const MissingKeyMessage: string :=
    "OpenAI API key not found. Please set it in the configuration file "
    + "at ~/.commy/config.yaml or set the COMMY_API_KEY environment variable."

  /** The one provider: its settings as read from the configuration. */
  datatype Provider = OpenAI(apiKey: Val, model: Val, temperature: Val, maxTokens: Val, url: string)

  /** `api_key or ""`: a falsy key (None, the empty string, ...) becomes
      the empty string. */
  function NewOpenAI(apiKey: Val, model: Val, temperature: Val, maxTokens: Val): (p: Provider)
    ensures Truthy(apiKey) ==> p.apiKey == apiKey
    ensures !Truthy(apiKey) ==> p.apiKey == Str("")
    ensures p.model == model && p.temperature == temperature && p.maxTokens == maxTokens
    ensures p.url == ApiUrl
  {
    OpenAI(if Truthy(apiKey) then apiKey else Str(""), model, temperature, maxTokens, ApiUrl)
  }

  /** The request body and bearer credential posted to the endpoint. */
  datatype Request = Request(
    url: string, bearer: Val, model: Val, messages: seq<(string, string)>,
    temperature: Val, maxTokens: Val)

  /** What the endpoint gave back: the first choice's text, or the detail
      of a failed request or non-success status. */
  datatype Reply = Completion(content: string) | Failure(detail: string)

  /** One generation attempt: the request that was posted, if any, and
      the outcome. */
  datatype Attempt = Attempt(sent: Option<Request>, result: Result<string>)

  /** The provider's call. Without a key it fails before any request is
      built; otherwise it posts the prompt as the single user message and
      returns the stripped reply text or an error carrying the detail. */
  function ProviderGenerate(p: Provider, prompt: string, post: Request -> Reply): (a: Attempt)
    ensures !Truthy(p.apiKey) <==> a.sent.None?
    ensures a.sent.None? ==> a.result == Err(RuntimeError(MissingKeyMessage))
    ensures a.sent.Some? ==>
      a.sent.value.messages == [("user", prompt)] && a.sent.value.bearer == p.apiKey
      && a.sent.value.model == p.model && a.sent.value.url == p.url
      && a.sent.value.temperature == p.temperature && a.sent.value.maxTokens == p.maxTokens
    ensures a.sent.Some? && post(a.sent.value).Failure? ==>
      a.result == Err(RuntimeError("Error calling OpenAI API: " + post(a.sent.value).detail))
    ensures a.sent.Some? && post(a.sent.value).Completion? ==>
      a.result == Ok(Strip(post(a.sent.value).content))
  {
    if !Truthy(p.apiKey) then Attempt(None, Err(RuntimeError(MissingKeyMessage)))
    else
      var request := Request(p.url, p.apiKey, p.model, [("user", prompt)], p.temperature, p.maxTokens);
      match post(request)
      case Completion(content) => Attempt(Some(request), Ok(Strip(content)))
      case Failure(detail) => Attempt(Some(request), Err(RuntimeError("Error calling OpenAI API: " + detail)))
  }

  /** `config[path[0]][path[1]]...`, raising where Python would. */
  function Lookup(config: map<string, Val>, path: seq<string>): (r: Result<Val>)
    ensures r.Ok? <==> At(Dict(config), path).Some?
    ensures r.Ok? ==> r.value == At(Dict(config), path).value
    ensures r.Err? ==> r.error == BadConfig(path)
  {
    match At(Dict(config), path)
    case Some(v) => Ok(v)
    case None => Err(BadConfig(path))
  }

  /** The provider named by `ai.provider`, compared case-insensitively. The
      key is resolved first, as the program does. */
  function GetAiProvider(config: map<string, Val>, env: Option<string>): (r: Result<Provider>)
    ensures GetApiKey(env, config).Err? ==> r == Err(GetApiKey(env, config).error)
    ensures r.Ok? ==> (GetApiKey(env, config).Ok?
      && Lookup(config, ["ai", "provider"]).Ok? && Lookup(config, ["ai", "provider"]).value.Str?
      && Lower(Lookup(config, ["ai", "provider"]).value.s) == "openai")
    ensures r.Ok? ==> (r.value.url == ApiUrl
      && r.value.apiKey == (if Truthy(GetApiKey(env, config).value) then GetApiKey(env, config).value else Str("")))
  {
    var key :- GetApiKey(env, config);
    var name :- Lookup(config, ["ai", "provider"]);
    if !name.Str? then Err(BadConfig(["ai", "provider"]))
    else if Lower(name.s) != "openai" then Err(ValueError("Unsupported AI provider: " + Lower(name.s)))
    else
      var model :- Lookup(config, ["ai", "model"]);
      var temperature :- Lookup(config, ["ai", "temperature"]);
      var maxTokens :- Lookup(config, ["ai", "max_tokens"]);
      Ok(NewOpenAI(key, model, temperature, maxTokens))
  }

  /** The `ai` section of `config`, when it is a mapping with every setting. */
  predicate WellShaped(config: map<string, Val>) {
    "ai" in config && config["ai"].Dict? && AiKeys <= config["ai"].entries.Keys
  }

  /** With a well-shaped `ai` section, any capitalisation of "openai"
      selects the provider with the configured settings and the resolved
      key; any other string names an unsupported provider. */
  lemma ProviderByName(config: map<string, Val>, env: Option<string>)
    requires WellShaped(config) && config["ai"].entries["provider"].Str?
    ensures var ai := config["ai"].entries;
      var r := GetAiProvider(config, env);
      var key := GetApiKey(env, config).value;
      (Lower(ai["provider"].s) == "openai" ==>
        r == Ok(NewOpenAI(key, ai["model"], ai["temperature"], ai["max_tokens"])))
      && (Lower(ai["provider"].s) != "openai" ==>
        r == Err(ValueError("Unsupported AI provider: " + Lower(ai["provider"].s))))
  {
    var ai := config["ai"].entries;
    assert At(Dict(config), ["ai", "api_key"]) == Some(ai["api_key"]);
    assert At(Dict(config), ["ai", "provider"]) == Some(ai["provider"]);
    assert At(Dict(config), ["ai", "model"]) == Some(ai["model"]);
    assert At(Dict(config), ["ai", "temperature"]) == Some(ai["temperature"]);
    assert At(Dict(config), ["ai", "max_tokens"]) == Some(ai["max_tokens"]);
  }

  /** The style the configuration asks for, "conventional" when unset. */
  function CommitStyle(config: map<string, Val>): (style: Val)
    ensures "commit_style" !in config ==> style == Str("conventional")
    ensures "commit_style" in config ==> style == config["commit_style"]
  {
    if "commit_style" in config then config["commit_style"] else Str("conventional")
  }

  /** The style in effect after loading: the document's `commit_style`
      when it sets one, "conventional" otherwise, since the defaults
      always supply the key. */
  lemma LoadedStyle(p: Parsed)
    ensures CommitStyle(LoadConfig(p)) ==
      if IsOverlay(p) && "commit_style" in p.doc.entries then p.doc.entries["commit_style"]
      else Str("conventional")
  {
    assert "commit_style" in Defaults;
    if IsOverlay(p) && "commit_style" !in p.doc.entries {
      assert LoadConfig(p)["commit_style"] == Defaults["commit_style"];
    }
  }

  /** The whole generation step: build the prompt in the configured style,
      pick the provider, and call it. */
  function GenerateCommitMessage(diff: string, config: map<string, Val>, env: Option<string>,
                                 post: Request -> Reply): (r: Result<string>)
    ensures GetAiProvider(config, env).Err? ==> r == Err(GetAiProvider(config, env).error)
    ensures GetAiProvider(config, env).Ok? ==>
      r == ProviderGenerate(GetAiProvider(config, env).value,
                            CreateCommitPrompt(diff, CommitStyle(config)), post).result
  {
    var prompt := CreateCommitPrompt(diff, CommitStyle(config));
    var provider :- GetAiProvider(config, env);
    ProviderGenerate(provider, prompt, post).result
  }

  /** The built-in `ai` section names the provider "openai" and has an
      empty key. */
  lemma DefaultsWellShaped()
    ensures WellShaped(Defaults)
    ensures Defaults["ai"].entries["provider"] == Str("openai") && Lower("openai") == "openai"
    ensures Defaults["ai"].entries["api_key"] == Str("")
  {
    assert Defaults["ai"].entries == DefaultAi;
  }

  /** A provider selected without a usable key fails with the missing-key
      error, whatever the diff and the endpoint. */
  lemma MissingKeyFails(diff: string, config: map<string, Val>, env: Option<string>, post: Request -> Reply)
    requires GetAiProvider(config, env).Ok? && !Truthy(GetAiProvider(config, env).value.apiKey)
    ensures GenerateCommitMessage(diff, config, env, post) == Err(RuntimeError(MissingKeyMessage))
  {
  }

  /** With the built-in defaults and no key in the environment, generation
      fails with the missing-key error and never reaches the endpoint. */
  lemma DefaultsNeedAKey(diff: string, env: Option<string>, post: Request -> Reply)
    requires env.None? || env.value == ""
    ensures GenerateCommitMessage(diff, Defaults, env, post) == Err(RuntimeError(MissingKeyMessage))
  {
    DefaultsWellShaped();
    ProviderByName(Defaults, env);
    assert GetApiKey(env, Defaults) == Ok(Str(""));
    MissingKeyFails(diff, Defaults, env, post);
  }

  /** A key from the environment reaches the endpoint as the bearer
      credential, with the prompt for the diff as the only message. */
  lemma EnvironmentKeyIsSent(diff: string, config: map<string, Val>, key: string, post: Request -> Reply)
    requires key != ""
    requires GetAiProvider(config, Some(key)).Ok?
    ensures var p := GetAiProvider(config, Some(key)).value;
      var a := ProviderGenerate(p, CreateCommitPrompt(diff, CommitStyle(config)), post);
      a.sent.Some? && a.sent.value.bearer == Str(key)
      && DiffOfPrompt(a.sent.value.messages[0].1, CommitStyle(config)) == Some(diff)
  {
    assert GetApiKey(Some(key), config) == Ok(Str(key));
    PromptRoundTrip(diff, CommitStyle(config));
  }
}
