/**
 * The lit.dev playground page: the share button writes the project's files
 * into the URL fragment as `#project=<token>`, and on load and on every
 * hash change the page reads the fragment back, loading either those
 * files or a sample project.
 *
 * `JSON.stringify` and `JSON.parse` are parameters: the model knows of a
 * parsed JSON value only whether it is an array of `{name, content}`
 * records, falsy, or something else truthy.
 */
module Playground {
  import opened Wrappers
  import SafeBase64
  import FormUrlencoded

  /** One file of a project: `{name, content}`. */
  datatype FileRecord = FileRecord(name: string, content: string)

  /**
   * The config given to the playground project: the config it extends and
   * its files, an object from file name to `{content}` written here as the
   * list of its entries in order.
   */
  datatype Config = Config(extendsSrc: string, files: seq<FileRecord>)

  /** What `JSON.parse` gives, as far as the page looks at it. */
  datatype JsonValue =
    | FileList(records: seq<FileRecord>)  // an array of `{name, content}` records
    | Falsy                               // null, false, 0 or ""
    | OtherTruthy                         // any other value; it has no `map` that works

  /** What the page does after reading the fragment. */
  datatype Outcome =
    | LoadFiles(config: Config)    // assigns `project.config`
    | LoadSample(src: string)      // assigns `project.projectSrc`
    | Throws                       // `urlFiles.map` throws a TypeError; nothing is assigned

  const BaseConfig: string := "/samples/base.json"
  const DefaultSample: string := "examples/hello-world-typescript"

  // ---------------------------------------------------------------------------
  // `Object.fromEntries` over name-content entries.

  /** No file name occurs twice, as in any object. */
  predicate DistinctNames(files: seq<FileRecord>) {
    forall i, j :: 0 <= i < j < |files| ==> files[i].name != files[j].name
  }

  /** The position of the entry named n, or |obj| when there is none. */
  function IndexOfName(obj: seq<FileRecord>, n: string): (i: nat)
    ensures i <= |obj|
    ensures i < |obj| ==> obj[i].name == n
    ensures forall j :: 0 <= j < i ==> obj[j].name != n
  {
    if obj == [] then 0 else if obj[0].name == n then 0 else 1 + IndexOfName(obj[1..], n)
  }

  /** Setting a property: an existing one keeps its place and takes the new value, a new one goes last. */
  function Put(obj: seq<FileRecord>, e: FileRecord): (r: seq<FileRecord>)
    requires DistinctNames(obj)
    ensures DistinctNames(r)
  {
    var i := IndexOfName(obj, e.name);
    if i < |obj| then obj[i := e] else obj + [e]
  }

  /** `Object.fromEntries(entries)`: the properties set one entry after another, from the first. */
  function FromEntries(entries: seq<FileRecord>): (obj: seq<FileRecord>)
    ensures DistinctNames(obj)
    decreases |entries|
  {
    if entries == [] then [] else Put(FromEntries(entries[..|entries| - 1]), entries[|entries| - 1])
  }

  /** The content of property n of an object, if it has one. */
  function Lookup(obj: seq<FileRecord>, n: string): Option<string> {
    var i := IndexOfName(obj, n);
    if i < |obj| then Some(obj[i].content) else None
  }

  /** An independent reading of the entries: the content of the last entry named n. */
  function LastContent(entries: seq<FileRecord>, n: string): Option<string>
    decreases |entries|
  {
    if entries == [] then None
    else if entries[|entries| - 1].name == n then Some(entries[|entries| - 1].content)
    else LastContent(entries[..|entries| - 1], n)
  }

  lemma IndexOfNameDistinct(obj: seq<FileRecord>, i: nat)
    requires DistinctNames(obj) && i < |obj|
    ensures IndexOfName(obj, obj[i].name) == i
  {
  }

  /** Each property of the object is the last entry with its name; no other name appears. */
  lemma {:induction false} FromEntriesLastWins(entries: seq<FileRecord>, n: string)
    ensures Lookup(FromEntries(entries), n) == LastContent(entries, n)
    decreases |entries|
  {
    if entries != [] {
      var init, e := entries[..|entries| - 1], entries[|entries| - 1];
      var obj := FromEntries(init);
      FromEntriesLastWins(init, n);
      var i := IndexOfName(obj, e.name);
      var r := Put(obj, e);
      if e.name == n {
        if i < |obj| {
          IndexOfNameDistinct(r, i);
        } else {
          IndexOfNameDistinct(r, |obj|);
        }
      } else {
        var k := IndexOfName(obj, n);
        if k < |obj| {
          IndexOfNameDistinct(r, k);
        } else {
          assert forall j :: 0 <= j < |r| ==> r[j].name != n;
        }
      }
    }
  }

  /** Entries with distinct names come out as they went in, in the same order. */
  lemma {:induction false} FromEntriesDistinct(entries: seq<FileRecord>)
    requires DistinctNames(entries)
    ensures FromEntries(entries) == entries
    decreases |entries|
  {
    if entries != [] {
      var init, e := entries[..|entries| - 1], entries[|entries| - 1];
      assert DistinctNames(init);
      FromEntriesDistinct(init);
      assert forall j :: 0 <= j < |init| ==> init[j].name != e.name;
      assert IndexOfName(init, e.name) == |init|;
      assert init + [e] == entries;
    }
  }

  // ---------------------------------------------------------------------------
  // The sample whitelist.

  /** A character of the class `[a-zA-Z0-9_\-\/]`. */
  predicate IsSampleChar(c: char) {
    'a' <= c <= 'z' || 'A' <= c <= 'Z' || '0' <= c <= '9' || c == '_' || c == '-' || c == '/'
  }

  /** `s.match(/^[a-zA-Z0-9_\-\/]+$/)` succeeds: one or more whitelisted characters and nothing else. */
  predicate IsSampleName(s: string) {
    |s| > 0 && forall i :: 0 <= i < |s| ==> IsSampleChar(s[i])
  }

  /** Line 133: the project file of a sample. */
  function SampleSrc(sample: string): string {
    "/samples/" + sample + "/project.json"
  }

  /** A project source under `/samples/`, its only `.` the one of `project.json`, so never `..`. */
  predicate IsSafeSrc(src: string) {
    && |src| > 22
    && src[..9] == "/samples/"
    && src[|src| - 13..] == "/project.json"
    && forall i :: 0 <= i < |src| && src[i] == '.' ==> i == |src| - 5
  }

  lemma {:induction false} SampleSrcIsSafe(sample: string)
    requires IsSampleName(sample)
    ensures IsSafeSrc(SampleSrc(sample))
  {
    var src := SampleSrc(sample);
    assert src[..9] == "/samples/";
    assert src[|src| - 13..] == "/project.json";
    forall i | 0 <= i < |src| ensures src[i] == '.' ==> i == |src| - 5 {
      if i < 9 {
        assert src[i] == "/samples/"[i];
      } else if i < 9 + |sample| {
        assert src[i] == sample[i - 9];
      } else {
        assert src[i] == "/project.json"[i - 9 - |sample|];
      }
    }
  }

  lemma DefaultSampleIsSampleName()
    ensures IsSampleName(DefaultSample)
  {
  }

  // ---------------------------------------------------------------------------
  // Reading the fragment (lines 96-133).

  /** `hash.slice(1)`: the fragment without its `#`. */
  function HashQuery(hash: string): string {
    if |hash| >= 1 then hash[1..] else ""
  }

  /** Lines 100-113: the value `urlFiles` holds, None while it is `undefined`. */
  function UrlFiles(params: seq<FormUrlencoded.Param>, parse: string -> Option<JsonValue>): Option<JsonValue> {
    match FormUrlencoded.Get(params, "project")
    case None => None
    case Some(token) =>
      if token == "" then None
      else
        match SafeBase64.DecodeSafeBase64(token)
        case None => None
        case Some(json) => parse(json)
  }

  /** Lines 128-132: the URL's sample when it passes the whitelist, the default otherwise. */
  function ChooseSample(params: seq<FormUrlencoded.Param>): (sample: string)
    ensures IsSampleName(sample)
  {
    DefaultSampleIsSampleName();
    match FormUrlencoded.Get(params, "sample")
    case Some(s) => if IsSampleName(s) then s else DefaultSample
    case None => DefaultSample
  }

  /** What `syncStateFromUrlHash` does for a given `location.hash`. */
  function Decide(hash: string, parse: string -> Option<JsonValue>): Outcome {
    var params := Params(hash);
    OutcomeOf(params, UrlFiles(params, parse))
  }

  /** Lines 117-133: what the page does with the parameters and the value of `urlFiles`. */
  function OutcomeOf(params: seq<FormUrlencoded.Param>, urlFiles: Option<JsonValue>): Outcome {
    match urlFiles
    case Some(FileList(records)) => LoadFiles(Config(BaseConfig, FromEntries(records)))
    case Some(OtherTruthy) => Throws
    case _ => LoadSample(SampleSrc(ChooseSample(params)))
  }

  /** The query that the fragment stands for. */
  function Params(hash: string): seq<FormUrlencoded.Param> {
    FormUrlencoded.URLSearchParams(HashQuery(hash))
  }

  /** A token's characters pass through fragment parsing untouched. */
  lemma TokenIsPlain(t: string)
    requires SafeBase64.IsTokenText(t)
    ensures FormUrlencoded.IsPlain(t)
  {
  }

  /** The fragment `#project=<token>` gives back the token as `project`, and no `sample`. */
  lemma HashSurvivesParsing(t: string)
    requires SafeBase64.IsTokenText(t)
    ensures FormUrlencoded.Get(Params("#project=" + t), "project") == Some(t)
    ensures FormUrlencoded.Get(Params("#project=" + t), "sample") == None
  {
    TokenIsPlain(t);
    assert HashQuery("#project=" + t) == "project=" + t;
    assert "project" + "=" + t == "project=" + t;
    FormUrlencoded.ParsePlainPair("project", t);
  }

  /**
   * Failure isolation: a missing or empty `project`, a token that does not
   * decode, JSON that does not parse or a falsy JSON value all lead to the
   * sample; only an array of records loads files, under the base config.
   */
  lemma DecideCases(hash: string, parse: string -> Option<JsonValue>)
    ensures var params := Params(hash);
            var token := FormUrlencoded.Get(params, "project");
            var sample := LoadSample(SampleSrc(ChooseSample(params)));
            && (token.None? || token == Some("") ==> Decide(hash, parse) == sample)
            && (token.Some? && token.value != "" ==>
                  match SafeBase64.DecodeSafeBase64(token.value)
                  case None => Decide(hash, parse) == sample
                  case Some(json) =>
                    match parse(json)
                    case None => Decide(hash, parse) == sample
                    case Some(Falsy) => Decide(hash, parse) == sample
                    case Some(OtherTruthy) => Decide(hash, parse) == Throws
                    case Some(FileList(records)) => Decide(hash, parse) == LoadFiles(Config(BaseConfig, FromEntries(records))))
  {
  }

  /** Whatever the fragment, a sample load points under `/samples/` and a file load names each file once. */
  lemma DecideIsSafe(hash: string, parse: string -> Option<JsonValue>)
    ensures Decide(hash, parse).LoadSample? ==> IsSafeSrc(Decide(hash, parse).src)
    ensures Decide(hash, parse).LoadFiles? ==>
              Decide(hash, parse).config.extendsSrc == BaseConfig && DistinctNames(Decide(hash, parse).config.files)
  {
    SampleSrcIsSafe(ChooseSample(Params(hash)));
  }

  /**
   * When no files load, the URL's `sample` is loaded exactly when it is
   * present and passes the whitelist; when it is absent (`get` returns null)
   * or fails the whitelist, the default is.
   */
  lemma SampleSelection(hash: string, parse: string -> Option<JsonValue>, s: Option<string>)
    requires FormUrlencoded.Get(Params(hash), "sample") == s
    requires UrlFiles(Params(hash), parse).None? || UrlFiles(Params(hash), parse) == Some(Falsy)
    ensures Decide(hash, parse) == LoadSample(SampleSrc(if s.Some? && IsSampleName(s.value) then s.value else DefaultSample))
  {
    assert ChooseSample(Params(hash)) == if s.Some? && IsSampleName(s.value) then s.value else DefaultSample;
  }

  /** The fragment `#sample=abc` names the sample `abc` and no project. */
  lemma SampleHashParams()
    ensures FormUrlencoded.Get(Params("#sample=abc"), "sample") == Some("abc")
    ensures FormUrlencoded.Get(Params("#sample=abc"), "project") == None
  {
    assert HashQuery("#sample=abc") == "sample" + "=" + "abc";
    FormUrlencoded.ParsePlainPair("sample", "abc");
    assert "sample"[0] != "project"[0];
  }

  /** `abc` passes the whitelist. */
  lemma AbcIsSampleName()
    ensures IsSampleName("abc")
  {
  }

  /** A fragment with a whitelisted `sample` and no `project` loads that sample. */
  lemma SampleFromHash(parse: string -> Option<JsonValue>)
    ensures Decide("#sample=abc", parse) == LoadSample(SampleSrc("abc"))
  {
    SampleHashParams();
    AbcIsSampleName();
    SampleSelection("#sample=abc", parse, Some("abc"));
  }

  /** An empty fragment loads the default sample. */
  lemma EmptyHash(parse: string -> Option<JsonValue>)
    ensures Decide("", parse) == LoadSample(SampleSrc(DefaultSample))
  {
    assert Params("") == [];
  }

  // ---------------------------------------------------------------------------
  // Sharing (lines 67-79).

  /** Lines 69-74: the records of the current files; none without a config. */
  function SharedFiles(config: Option<Config>): seq<FileRecord> {
    match config
    case None => []
    case Some(c) => c.files
  }

  /** Line 76: the fragment the share button writes. */
  function ShareHash(config: Option<Config>, stringify: seq<FileRecord> -> string): string {
    "#project=" + SafeBase64.EncodeSafeBase64(stringify(SharedFiles(config)))
  }

  /**
   * Sharing and reading back: when the JSON serialiser's output is non-empty
   * and parses back to the same records, the fragment written by the share
   * button loads the same files under the base config.
   */
  lemma ShareThenSync(config: Option<Config>, stringify: seq<FileRecord> -> string, parse: string -> Option<JsonValue>)
    requires config.Some? ==> DistinctNames(config.value.files)
    requires stringify(SharedFiles(config)) != ""
    requires parse(stringify(SharedFiles(config))) == Some(FileList(SharedFiles(config)))
    ensures Decide(ShareHash(config, stringify), parse) == LoadFiles(Config(BaseConfig, SharedFiles(config)))
  {
    var files := SharedFiles(config);
    var json := stringify(files);
    var t := SafeBase64.EncodeSafeBase64(json);
    SafeBase64.TokenAlphabet(json);
    SafeBase64.TokenEmpty(json);
    SafeBase64.RoundTrip(json);
    HashSurvivesParsing(t);
    FromEntriesDistinct(files);
  }

  // ---------------------------------------------------------------------------
  // The page.

  /** The state the two handlers read and write: `location.hash` and the project's `config` and `projectSrc`. */
  class PlaygroundPage {
    var hash: string
    var config: Option<Config>
    var projectSrc: Option<string>

    /** Files have distinct names and a sample source stays under `/samples/`. */
    predicate Valid()
      reads this
    {
      && (config.Some? ==> DistinctNames(config.value.files))
      && (projectSrc.Some? ==> IsSafeSrc(projectSrc.value))
    }

    /** A page opened at some fragment, before its first sync. */
    constructor(initialHash: string)
      ensures Valid()
      ensures hash == initialHash && config == None && projectSrc == None
    {
      hash := initialHash;
      config := None;
      projectSrc := None;
    }

    /** The share button (lines 67-76): the files, serialised and encoded, into the fragment. */
    method Share(stringify: seq<FileRecord> -> string)
      requires Valid()
      modifies this`hash
      ensures Valid()
      ensures hash == ShareHash(config, stringify)
    {
      var files: seq<FileRecord> := [];
      if config.Some? {
        files := config.value.files;
      }
      var base64 := SafeBase64.EncodeSafeBase64(stringify(files));
      hash := "#project=" + base64;
    }

    /**
     * `syncStateFromUrlHash` (lines 96-133). Returns false where the handler
     * throws. The new state is what Decide prescribes for the fragment.
     */
    method SyncStateFromUrlHash(parse: string -> Option<JsonValue>) returns (completed: bool)
      requires Valid()
      modifies this`config, this`projectSrc
      ensures Valid()
      ensures completed <==> !Decide(hash, parse).Throws?
      ensures Decide(hash, parse).LoadFiles? ==>
                config == Some(Decide(hash, parse).config) && projectSrc == old(projectSrc)
      ensures Decide(hash, parse).LoadSample? ==>
                projectSrc == Some(Decide(hash, parse).src) && config == old(config)
      ensures Decide(hash, parse).Throws? ==> config == old(config) && projectSrc == old(projectSrc)
    {
      var params := FormUrlencoded.URLSearchParams(HashQuery(hash));
      var urlFiles: Option<JsonValue> := None;
      var base64 := FormUrlencoded.Get(params, "project");
      if base64.Some? && base64.value != "" {
        var json := SafeBase64.DecodeSafeBase64(base64.value);
        if json.Some? {
          var parsed := parse(json.value);
          if parsed.Some? {
            urlFiles := parsed;
          }
        }
      }
      assert params == Params(hash) && urlFiles == UrlFiles(params, parse);
      assert Decide(hash, parse) == OutcomeOf(params, urlFiles);
      if urlFiles.Some? && urlFiles.value != Falsy {
        if urlFiles.value.FileList? {
          config := Some(Config(BaseConfig, FromEntries(urlFiles.value.records)));
          completed := true;
        } else {
          completed := false;
        }
      } else {
        var sample := DefaultSample;
        DefaultSampleIsSampleName();
        var urlSample := FormUrlencoded.Get(params, "sample");
        if urlSample.Some? && IsSampleName(urlSample.value) {
          sample := urlSample.value;
        }
        SampleSrcIsSafe(sample);
        projectSrc := Some(SampleSrc(sample));
        completed := true;
      }
    }
  }

  /** Sharing and then reading the new fragment back leaves the page with the files it shared. */
  method ShareAndReload(page: PlaygroundPage, stringify: seq<FileRecord> -> string, parse: string -> Option<JsonValue>)
    requires page.Valid()
    requires stringify(SharedFiles(page.config)) != ""
    requires parse(stringify(SharedFiles(page.config))) == Some(FileList(SharedFiles(page.config)))
    modifies page
    ensures page.Valid()
    ensures page.hash == ShareHash(old(page.config), stringify)
    ensures page.config == Some(Config(BaseConfig, SharedFiles(old(page.config))))
    ensures page.projectSrc == old(page.projectSrc)
  {
    page.Share(stringify);
    ShareThenSync(page.config, stringify, parse);
    var completed := page.SyncStateFromUrlHash(parse);
  }
}
