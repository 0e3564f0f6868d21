/** The image tag as a build cache key: which requests share a tag, and what they build. */
module BuildTag {
  import opened Common

  datatype Request = Request(repo: string, sha: string, sdk: string, comet: string, image: string, version: string)

  const OWNERS: map<string, string> :=
    map["cometbft" := "cometbft", "cosmos-sdk" := "cosmos", "gaia" := "cosmos", "evm" := "cosmos"]

  const DEPENDENCIES: map<string, string> :=
    map["cometbft/cometbft" := "github.com/cometbft/cometbft",
        "cosmos/cosmos-sdk" := "github.com/cosmos/cosmos-sdk",
        "cosmos/evm" := "github.com/cosmos/evm"]

  function GenerateReplace(owner: string, repo: string, tag: string): string {
    At(DEPENDENCIES, owner + "/" + repo) + "=github.com/" + owner + "/" + repo + "@" + tag
  }

  function JoinSpaces(parts: seq<string>): string {
    if parts == [] then ""
    else if |parts| == 1 then parts[0]
    else parts[0] + " " + JoinSpaces(parts[1..])
  }

  method GenerateMultipleReplaces(req: Request) returns (specs: string)
    ensures specs == ReplaceCmd(req)
  {
    var replaceSpecs := [];
    if req.repo == "cometbft" {
      replaceSpecs := replaceSpecs + [GenerateReplace(At(OWNERS, req.repo), req.repo, req.sha)];
    }
    if req.sdk != "" {
      replaceSpecs := replaceSpecs + [GenerateReplace(At(OWNERS, "cosmos-sdk"), "cosmos-sdk", req.sdk)];
    }
    if req.comet != "" {
      replaceSpecs := replaceSpecs + [GenerateReplace(At(OWNERS, "cometbft"), "cometbft", req.comet)];
    }
    assert replaceSpecs == ReplaceSpecs(req);
    specs := JoinSpaces(replaceSpecs);
  }

  function ReplaceSpecs(req: Request): seq<string> {
    (if req.repo == "cometbft" then [GenerateReplace(At(OWNERS, req.repo), req.repo, req.sha)] else []) +
    (if req.sdk != "" then [GenerateReplace(At(OWNERS, "cosmos-sdk"), "cosmos-sdk", req.sdk)] else []) +
    (if req.comet != "" then [GenerateReplace(At(OWNERS, "cometbft"), "cometbft", req.comet)] else [])
  }

  function ReplaceCmd(req: Request): string {
    JoinSpaces(ReplaceSpecs(req))
  }

  /** Version strings in a tag have '@' and '/' turned into '-'. */
  function Sanitize(s: string): string {
    if s == "" then "" else [if s[0] == '@' || s[0] == '/' then '-' else s[0]] + Sanitize(s[1..])
  }

  function Tag(req: Request): string {
    if req.repo == "cometbft" then req.image + "-" + req.version + "-" + req.repo + "-" + req.sha
    else
      req.repo + "-" + req.sha +
      (if req.sdk != "" then "-sdk-" + Sanitize(req.sdk) else "") +
      (if req.comet != "" then "-comet-" + Sanitize(req.comet) else "")
  }

  method GenerateTag(req: Request) returns (tag: string)
    ensures tag == Tag(req)
  {
    if req.repo == "cometbft" {
      return req.image + "-" + req.version + "-" + req.repo + "-" + req.sha;
    }
    tag := req.repo + "-" + req.sha;
    if req.sdk != "" {
      tag := tag + ("-sdk-" + Sanitize(req.sdk));
    } else {
      assert tag + "" == tag;
    }
    if req.comet != "" {
      tag := tag + ("-comet-" + Sanitize(req.comet));
    } else {
      assert tag + "" == tag;
    }
  }

  /** The build arguments: the tag, the source to clone and what to replace in it. */
  function BuildArgs(req: Request): map<string, string> {
    if req.repo == "cometbft" then
      map["GIT_SHA" := Tag(req), "CHAIN_SRC" := "https://github.com/cosmos/cosmos-sdk", "CHAIN_TAG" := req.version,
          "REPLACE_CMD" := ReplaceCmd(req)]
    else
      var args := map["GIT_SHA" := Tag(req), "CHAIN_TAG" := req.sha,
                      "CHAIN_SRC" := "https://github.com/" + At(OWNERS, req.repo) + "/" + req.repo];
      if ReplaceCmd(req) != "" then args["REPLACE_CMD" := ReplaceCmd(req)] else args
  }

  method BuildArguments(req: Request) returns (args: map<string, string>)
    ensures args == BuildArgs(req)
  {
    var tag := GenerateTag(req);
    args := map[];
    args := args["GIT_SHA" := tag];
    var replaceCmd := GenerateMultipleReplaces(req);
    if req.repo == "cometbft" {
      args := args["CHAIN_SRC" := "https://github.com/cosmos/cosmos-sdk"];
      args := args["CHAIN_TAG" := req.version];
      args := args["REPLACE_CMD" := replaceCmd];
    } else {
      args := args["CHAIN_TAG" := req.sha];
      args := args["CHAIN_SRC" := "https://github.com/" + At(OWNERS, req.repo) + "/" + req.repo];
      if replaceCmd != "" {
        args := args["REPLACE_CMD" := replaceCmd];
      }
    }
  }

  /** What a build gets, spelled out by repository. */
  lemma ArgumentsMean(req: Request)
    requires ModuleRepo(req.repo) || req.repo == "cometbft"
    ensures At(BuildArgs(req), "GIT_SHA") == Tag(req)
    ensures At(BuildArgs(req), "CHAIN_SRC") ==
            if req.repo == "gaia" then "https://github.com/cosmos/gaia"
            else if req.repo == "evm" then "https://github.com/cosmos/evm"
            else "https://github.com/cosmos/cosmos-sdk"
    ensures At(BuildArgs(req), "CHAIN_TAG") == if req.repo == "cometbft" then req.version else req.sha
    ensures At(BuildArgs(req), "REPLACE_CMD") == ReplaceCmd(req)
    ensures "REPLACE_CMD" in BuildArgs(req) <==> req.repo == "cometbft" || ReplaceCmd(req) != ""
  {
    SourceMeans(req);
    VersionMeans(req);
  }

  lemma VersionMeans(req: Request)
    requires ModuleRepo(req.repo) || req.repo == "cometbft"
    ensures At(BuildArgs(req), "GIT_SHA") == Tag(req)
    ensures At(BuildArgs(req), "CHAIN_TAG") == if req.repo == "cometbft" then req.version else req.sha
    ensures At(BuildArgs(req), "REPLACE_CMD") == ReplaceCmd(req)
    ensures "REPLACE_CMD" in BuildArgs(req) <==> req.repo == "cometbft" || ReplaceCmd(req) != ""
  {
    if req.repo == "cometbft" {
      Entries(Tag(req), "https://github.com/cosmos/cosmos-sdk", req.version, ReplaceCmd(req));
    } else {
      Entries(Tag(req), "https://github.com/" + At(OWNERS, req.repo) + "/" + req.repo, req.sha, ReplaceCmd(req));
    }
  }

  lemma Entries(tag: string, src: string, version: string, cmd: string)
    ensures var args := map["GIT_SHA" := tag, "CHAIN_TAG" := version, "CHAIN_SRC" := src];
            && Holds(args, tag, src, version) && Holds(args["REPLACE_CMD" := cmd], tag, src, version)
            && "REPLACE_CMD" !in args
    ensures Holds(map["GIT_SHA" := tag, "CHAIN_SRC" := src, "CHAIN_TAG" := version, "REPLACE_CMD" := cmd], tag, src, version)
  {
    KeysDiffer();
  }

  predicate Holds(args: map<string, string>, tag: string, src: string, version: string) {
    At(args, "GIT_SHA") == tag && At(args, "CHAIN_SRC") == src && At(args, "CHAIN_TAG") == version
  }

  lemma CosmosOwns(repo: string)
    requires ModuleRepo(repo)
    ensures At(OWNERS, repo) == "cosmos"
  {
    assert |"cosmos-sdk"| == 10 && |"cometbft"| == 8 && |"gaia"| == 4 && |"evm"| == 3;
  }

  lemma CloneUrls()
    ensures "https://github.com/" + "cosmos" + "/" + "gaia" == "https://github.com/cosmos/gaia"
    ensures "https://github.com/" + "cosmos" + "/" + "evm" == "https://github.com/cosmos/evm"
    ensures "https://github.com/" + "cosmos" + "/" + "cosmos-sdk" == "https://github.com/cosmos/cosmos-sdk"
  {
  }

  lemma SourceMeans(req: Request)
    requires ModuleRepo(req.repo) || req.repo == "cometbft"
    ensures At(BuildArgs(req), "CHAIN_SRC") ==
            if req.repo == "gaia" then "https://github.com/cosmos/gaia"
            else if req.repo == "evm" then "https://github.com/cosmos/evm"
            else "https://github.com/cosmos/cosmos-sdk"
  {
    if req.repo == "cometbft" {
      assert |"cometbft"| == 8 && |"gaia"| == 4 && |"evm"| == 3;
      Entries(Tag(req), "https://github.com/cosmos/cosmos-sdk", req.version, ReplaceCmd(req));
    } else {
      CosmosOwns(req.repo);
      CloneUrls();
      Entries(Tag(req), "https://github.com/" + At(OWNERS, req.repo) + "/" + req.repo, req.sha, ReplaceCmd(req));
    }
  }

  lemma KeysDiffer()
    ensures "GIT_SHA" != "CHAIN_TAG" && "GIT_SHA" != "CHAIN_SRC" && "GIT_SHA" != "REPLACE_CMD"
    ensures "CHAIN_TAG" != "CHAIN_SRC" && "CHAIN_TAG" != "REPLACE_CMD" && "CHAIN_SRC" != "REPLACE_CMD"
  {
    assert |"GIT_SHA"| == 7 && |"CHAIN_TAG"| == 9 && |"CHAIN_SRC"| == 9 && |"REPLACE_CMD"| == 11;
    assert "CHAIN_TAG"[6] == 'T' && "CHAIN_SRC"[6] == 'S';
  }

  // ----- reading a tag back

  predicate Clean(s: string) { forall c :: c in s ==> c != '-' && c != '@' && c != '/' }

  predicate ModuleRepo(repo: string) { repo == "cosmos-sdk" || repo == "gaia" || repo == "evm" }

  /** The sha goes into the tag as it is, so only a dash in it can mislead. */
  predicate PlainSha(req: Request) { ModuleRepo(req.repo) && '-' !in req.sha }

  predicate CleanRequest(req: Request) { PlainSha(req) && Clean(req.sdk) && Clean(req.comet) }

  /** Text up to the first separator. */
  function Head(s: string, sep: char): string {
    if s == "" || s[0] == sep then "" else [s[0]] + Head(s[1..], sep)
  }

  lemma {:induction false} HeadOfClean(a: string, rest: string, sep: char)
    requires sep !in a && (rest == "" || rest[0] == sep)
    ensures Head(a + rest, sep) == a
  {
    if a == "" {
      assert a + rest == rest;
    } else {
      assert a[0] in a && (a + rest)[0] == a[0] && (a + rest)[1..] == a[1..] + rest;
      HeadOfClean(a[1..], rest, sep);
      assert [a[0]] + a[1..] == a;
    }
  }

  lemma SplitAt(sep: char, a: string, rest: string, b: string, rest': string)
    requires sep !in a && sep !in b && a + rest == b + rest'
    requires (rest == "" || rest[0] == sep) && (rest' == "" || rest'[0] == sep)
    ensures a == b && rest == rest'
  {
    HeadOfClean(a, rest, sep);
    HeadOfClean(b, rest', sep);
    assert (a + rest)[|a|..] == rest && (b + rest')[|b|..] == rest';
  }

  function SdkPart(sdk: string): string { if sdk != "" then "-sdk-" + sdk else "" }

  function CometPart(comet: string): string { if comet != "" then "-comet-" + comet else "" }

  /** The character after the first dash tells which override comes first. */
  lemma Marker(sdk: string, comet: string)
    ensures var s := SdkPart(sdk) + CometPart(comet);
            && (s == "" <==> sdk == "" && comet == "")
            && (s != "" ==> |s| > 1 && (s[1] == 's' <==> sdk != ""))
  {
    if sdk == "" && comet != "" {
      assert "" + CometPart(comet) == "-comet-" + comet;
    }
  }

  lemma CometReadBack(comet: string, comet': string)
    requires CometPart(comet) == CometPart(comet')
    ensures comet == comet'
  {
    if comet != "" && comet' != "" {
      assert CometPart(comet)[7..] == comet && CometPart(comet')[7..] == comet';
    }
  }

  lemma OverridesReadBack(sdk: string, comet: string, sdk': string, comet': string)
    requires '-' !in sdk && '-' !in comet && '-' !in sdk' && '-' !in comet'
    requires SdkPart(sdk) + CometPart(comet) == SdkPart(sdk') + CometPart(comet')
    ensures sdk == sdk' && comet == comet'
  {
    Marker(sdk, comet);
    Marker(sdk', comet');
    if sdk != "" && sdk' != "" {
      BothSdk(sdk, CometPart(comet), sdk', CometPart(comet'));
    } else {
      assert "" + CometPart(comet) == CometPart(comet) && "" + CometPart(comet') == CometPart(comet');
    }
    CometReadBack(comet, comet');
  }

  lemma BothSdk(sdk: string, rest: string, sdk': string, rest': string)
    requires '-' !in sdk && '-' !in sdk' && "-sdk-" + sdk + rest == "-sdk-" + sdk' + rest'
    requires (rest == "" || rest[0] == '-') && (rest' == "" || rest'[0] == '-')
    ensures sdk == sdk' && rest == rest'
  {
    assert ("-sdk-" + sdk + rest)[5..] == sdk + rest && ("-sdk-" + sdk' + rest')[5..] == sdk' + rest';
    SplitAt('-', sdk, rest, sdk', rest');
  }

  lemma CleanReadBack(a: Request, b: Request)
    requires CleanRequest(a) && CleanRequest(b) && Tag(a) == Tag(b)
    ensures a.repo == b.repo && a.sha == b.sha && a.sdk == b.sdk && a.comet == b.comet
  {
    SameModule(a, b);
    SanitizeKeeps(a.sdk);
    SanitizeKeeps(a.comet);
    SanitizeKeeps(b.sdk);
    SanitizeKeeps(b.comet);
    SplitAt('-', a.sha, SdkPart(a.sdk) + CometPart(a.comet), b.sha, SdkPart(b.sdk) + CometPart(b.comet));
    OverridesReadBack(a.sdk, a.comet, b.sdk, b.comet);
  }

  /** Injectivity: for the module repositories and clean versions the tag determines the
      request, and with it everything that is built. */
  lemma TagIsCacheKey(a: Request, b: Request)
    requires CleanRequest(a) && CleanRequest(b)
    ensures Tag(a) == Tag(b) <==> a.repo == b.repo && a.sha == b.sha && a.sdk == b.sdk && a.comet == b.comet
    ensures Tag(a) == Tag(b) ==> BuildArgs(a) == BuildArgs(b)
  {
    if Tag(a) == Tag(b) {
      CleanReadBack(a, b);
    }
  }

  // ----- when a tag identifies its build

  function Dashed(c: char): char { if c == '@' || c == '/' then '-' else c }

  lemma {:induction false} SanitizeAt(s: string)
    ensures |Sanitize(s)| == |s| && forall i :: 0 <= i < |s| ==> Sanitize(s)[i] == Dashed(s[i])
  {
    if s != "" {
      SanitizeAt(s[1..]);
    }
  }

  /** A version without '@' and '/' is kept as it is. */
  lemma {:induction false} SanitizeKeeps(s: string)
    requires '@' !in s && '/' !in s
    ensures Sanitize(s) == s
  {
    SanitizeAt(s);
    assert forall i :: 0 <= i < |s| ==> s[i] in s;
  }

  /** Only s itself is turned into a clean s. */
  lemma {:induction false} SanitizedToClean(x: string, s: string)
    requires Sanitize(x) == s && '-' !in s
    ensures x == s
  {
    SanitizeAt(x);
    assert forall i :: 0 <= i < |s| ==> s[i] in s;
  }

  /** An unclean version has a twin that looks the same in a tag. */
  lemma Twin(s: string) returns (t: string)
    requires !Clean(s)
    ensures t != s && |t| == |s| && Sanitize(t) == Sanitize(s)
  {
    var i :| 0 <= i < |s| && (s[i] == '-' || s[i] == '@' || s[i] == '/');
    t := s[i := if s[i] == '-' then '@' else '-'];
    SanitizeAt(s);
    SanitizeAt(t);
    assert Sanitize(t) == Sanitize(s);
  }

  function SdkSpec(tag: string): string { GenerateReplace(At(OWNERS, "cosmos-sdk"), "cosmos-sdk", tag) }

  function CometSpec(tag: string): string { GenerateReplace(At(OWNERS, "cometbft"), "cometbft", tag) }

  lemma Owners()
    ensures At(OWNERS, "cosmos-sdk") == "cosmos" && At(OWNERS, "cometbft") == "cometbft"
  {
    assert |"cosmos-sdk"| == 10 && |"cometbft"| == 8 && |"gaia"| == 4 && |"evm"| == 3;
  }

  lemma Origins()
    ensures At(DEPENDENCIES, "cosmos/cosmos-sdk") == "github.com/cosmos/cosmos-sdk"
    ensures At(DEPENDENCIES, "cometbft/cometbft") == "github.com/cometbft/cometbft"
  {
    assert "cosmos/cosmos-sdk"[2] == 's' && "cometbft/cometbft"[2] == 'm' && |"cosmos/evm"| == 10;
  }

  /** The specs of the two modules differ at one place, whatever their versions. */
  lemma SpecMarks(tag: string)
    ensures |SdkSpec(tag)| > 13 && SdkSpec(tag)[13] == 's'
    ensures |CometSpec(tag)| > 13 && CometSpec(tag)[13] == 'm'
  {
    Owners();
    Origins();
    assert "cosmos" + "/" + "cosmos-sdk" == "cosmos/cosmos-sdk";
    assert "cometbft" + "/" + "cometbft" == "cometbft/cometbft";
    assert "github.com/cosmos/cosmos-sdk"[13] == 's' && "github.com/cometbft/cometbft"[13] == 'm';
  }

  /** The specs as go mod edit reads them: the module, an equals sign, where it is taken from. */
  lemma SpecsRead(version: string)
    ensures SdkSpec(version) == "github.com/cosmos/cosmos-sdk=github.com/cosmos/cosmos-sdk@" + version
    ensures CometSpec(version) == "github.com/cometbft/cometbft=github.com/cometbft/cometbft@" + version
  {
    SpecTail(version);
    SpecPrefixes();
  }

  lemma SpecPrefixes()
    ensures SdkSpec("") == "github.com/cosmos/cosmos-sdk=github.com/cosmos/cosmos-sdk@"
    ensures CometSpec("") == "github.com/cometbft/cometbft=github.com/cometbft/cometbft@"
  {
    Owners();
    Origins();
    assert "cosmos" + "/" + "cosmos-sdk" == "cosmos/cosmos-sdk";
    assert "cometbft" + "/" + "cometbft" == "cometbft/cometbft";
    JoinPath("github.com/cosmos/cosmos-sdk", "cosmos", "cosmos-sdk");
    JoinPath("github.com/cometbft/cometbft", "cometbft", "cometbft");
    SdkLiteral();
    CometLiteral();
  }

  lemma JoinPath(origin: string, owner: string, repo: string)
    ensures origin + "=github.com/" + owner + "/" + repo + "@" + "" == origin + ("=github.com/" + (owner + "/" + repo) + "@")
  {
  }

  lemma SdkLiteral()
    ensures "github.com/cosmos/cosmos-sdk" + ("=github.com/" + "cosmos/cosmos-sdk" + "@") ==
            "github.com/cosmos/cosmos-sdk=github.com/cosmos/cosmos-sdk@"
  {
  }

  lemma CometLiteral()
    ensures "github.com/cometbft/cometbft" + ("=github.com/" + "cometbft/cometbft" + "@") ==
            "github.com/cometbft/cometbft=github.com/cometbft/cometbft@"
  {
  }

  lemma SpecTail(tag: string)
    ensures SdkSpec(tag) == SdkSpec("") + tag && CometSpec(tag) == CometSpec("") + tag
  {
  }

  function SdkOverride(sdk: string): string { if sdk != "" then " " + SdkSpec(sdk) else "" }

  function CometOverride(comet: string): string { if comet != "" then " " + CometSpec(comet) else "" }

  /** The part of the command for the overrides, each after a space. */
  function Overrides(req: Request): string { SdkOverride(req.sdk) + CometOverride(req.comet) }

  /** Each part after a space. */
  function Spaced(parts: seq<string>): string {
    if parts == [] then "" else (" " + parts[0]) + Spaced(parts[1..])
  }

  lemma {:induction false} SpacedAppend(x: seq<string>, y: seq<string>)
    ensures Spaced(x + y) == Spaced(x) + Spaced(y)
  {
    if x == [] {
      assert x + y == y;
    } else {
      assert (x + y)[0] == x[0] && (x + y)[1..] == x[1..] + y;
      SpacedAppend(x[1..], y);
    }
  }

  lemma {:induction false} SpacedJoin(parts: seq<string>)
    requires parts != []
    ensures Spaced(parts) == " " + JoinSpaces(parts)
  {
    if |parts| > 1 {
      SpacedJoin(parts[1..]);
    } else {
      assert Spaced(parts[1..]) == "";
    }
  }

  lemma SpacedOption(given: bool, part: string)
    ensures Spaced(if given then [part] else []) == if given then " " + part else ""
  {
    assert Spaced([part][1..]) == "";
    assert " " + part + "" == " " + part;
  }

  lemma {:induction false} SpacedThree(x: seq<string>, y: seq<string>, z: seq<string>)
    ensures Spaced(x + y + z) == Spaced(x) + (Spaced(y) + Spaced(z))
  {
    SpacedAppend(x + y, z);
    SpacedAppend(x, y);
  }

  lemma SpecsSpaced(req: Request)
    ensures Spaced(ReplaceSpecs(req)) == (if req.repo == "cometbft" then " " + CometSpec(req.sha) else "") + Overrides(req)
  {
    SpacedOption(req.repo == "cometbft", CometSpec(req.sha));
    SpacedOption(req.sdk != "", SdkSpec(req.sdk));
    SpacedOption(req.comet != "", CometSpec(req.comet));
    SpacedThree(if req.repo == "cometbft" then [CometSpec(req.sha)] else [],
                if req.sdk != "" then [SdkSpec(req.sdk)] else [],
                if req.comet != "" then [CometSpec(req.comet)] else []);
  }

  /** The command, with a space before each spec. */
  lemma ReplaceText(req: Request)
    ensures req.repo == "cometbft" ==> Spaced(ReplaceSpecs(req)) == (" " + CometSpec(req.sha)) + Overrides(req)
    ensures req.repo != "cometbft" ==> Spaced(ReplaceSpecs(req)) == Overrides(req)
    ensures Spaced(ReplaceSpecs(req)) == if ReplaceSpecs(req) == [] then "" else " " + ReplaceCmd(req)
  {
    SpecsSpaced(req);
    if ReplaceSpecs(req) != [] {
      SpacedJoin(ReplaceSpecs(req));
    }
    EmptyFirst(Overrides(req));
  }

  lemma EmptyFirst(x: string)
    ensures "" + x == x
  {
  }

  lemma DropSpace(r: string, c: string, o: string)
    requires " " + r == (" " + c) + o
    ensures r == c + o
  {
    assert (" " + r)[1..] == r && ((" " + c) + o)[1..] == c + o;
  }

  lemma OwnSpec(req: Request)
    requires req.repo == "cometbft"
    ensures ReplaceCmd(req) == CometSpec(req.sha) + Overrides(req)
  {
    ReplaceText(req);
    DropSpace(ReplaceCmd(req), CometSpec(req.sha), Overrides(req));
  }

  lemma NoOwnSpec(a: Request, b: Request)
    requires a.repo != "cometbft" && b.repo != "cometbft" && ReplaceCmd(a) == ReplaceCmd(b)
    ensures Overrides(a) == Overrides(b)
  {
    ReplaceText(a);
    ReplaceText(b);
    CommandGiven(a);
    CommandGiven(b);
  }

  lemma CommandGiven(req: Request)
    requires req.repo != "cometbft"
    ensures ReplaceCmd(req) == "" <==> ReplaceSpecs(req) == []
  {
    ReplaceText(req);
    OverrideMarks(req);
  }

  /** The overrides can be read back from the command as long as the sdk version has no space. */
  lemma OverridesDetermine(a: Request, b: Request)
    requires ' ' !in a.sdk && ' ' !in b.sdk && Overrides(a) == Overrides(b)
    ensures a.sdk == b.sdk && a.comet == b.comet
  {
    OverrideMarks(a);
    OverrideMarks(b);
    if a.sdk != "" {
      SdkReadBack(a.sdk, CometOverride(a.comet), b.sdk, CometOverride(b.comet));
    } else {
      assert "" + CometOverride(a.comet) == CometOverride(a.comet) && "" + CometOverride(b.comet) == CometOverride(b.comet);
    }
    CometOverrideReadBack(a.comet, b.comet);
  }

  lemma OverrideMarks(req: Request)
    ensures Overrides(req) == "" <==> req.sdk == "" && req.comet == ""
    ensures Overrides(req) != "" ==> Overrides(req)[0] == ' '
    ensures Overrides(req) != "" ==> |Overrides(req)| > 14 && Overrides(req)[14] == if req.sdk != "" then 's' else 'm'
  {
    SpecMarks(req.sdk);
    SpecMarks(req.comet);
  }

  lemma SdkReadBack(sdk: string, rest: string, sdk': string, rest': string)
    requires sdk != "" && sdk' != "" && SdkOverride(sdk) + rest == SdkOverride(sdk') + rest'
    requires ' ' !in sdk && ' ' !in sdk' && (rest == "" || rest[0] == ' ') && (rest' == "" || rest'[0] == ' ')
    ensures sdk == sdk' && rest == rest'
  {
    DropSdkSpec(sdk, rest);
    DropSdkSpec(sdk', rest');
    SplitAt(' ', sdk, rest, sdk', rest');
  }

  lemma DropSdkSpec(sdk: string, rest: string)
    requires sdk != ""
    ensures var k := |SdkSpec("")| + 1; |SdkOverride(sdk) + rest| >= k && (SdkOverride(sdk) + rest)[k..] == sdk + rest
  {
    SpecTail(sdk);
    DropSpaced(SdkSpec(""), sdk, rest);
  }

  lemma DropSpaced(p: string, x: string, rest: string)
    ensures var k := |p| + 1; |(" " + (p + x)) + rest| >= k && ((" " + (p + x)) + rest)[k..] == x + rest
  {
  }

  lemma CometOverrideReadBack(comet: string, comet': string)
    requires CometOverride(comet) == CometOverride(comet')
    ensures comet == comet'
  {
    SpecTail(comet);
    SpecTail(comet');
    if comet != "" && comet' != "" {
      var k := |CometSpec("")| + 1;
      assert CometOverride(comet)[k..] == comet && CometOverride(comet')[k..] == comet';
    }
  }

  /** What the replacement command determines: for versions without a space, every override
      and, in a cometbft build, the sha. */
  lemma ReplaceCmdDetermines(a: Request, b: Request)
    requires (a.repo == "cometbft") == (b.repo == "cometbft")
    requires ' ' !in a.sdk && ' ' !in b.sdk && (a.repo == "cometbft" ==> ' ' !in a.sha && ' ' !in b.sha)
    ensures ReplaceCmd(a) == ReplaceCmd(b) <==>
            a.sdk == b.sdk && a.comet == b.comet && (a.repo == "cometbft" ==> a.sha == b.sha)
  {
    if ReplaceCmd(a) == ReplaceCmd(b) {
      if a.repo == "cometbft" {
        OwnSpec(a);
        OwnSpec(b);
        ShaReadBack(a, b);
      } else {
        NoOwnSpec(a, b);
      }
      OverridesDetermine(a, b);
    }
  }

  lemma ShaReadBack(a: Request, b: Request)
    requires CometSpec(a.sha) + Overrides(a) == CometSpec(b.sha) + Overrides(b)
    requires ' ' !in a.sha && ' ' !in b.sha
    ensures a.sha == b.sha && Overrides(a) == Overrides(b)
  {
    SpecTail(a.sha);
    SpecTail(b.sha);
    OverrideMarks(a);
    OverrideMarks(b);
    DropPrefix(CometSpec(""), a.sha, Overrides(a));
    DropPrefix(CometSpec(""), b.sha, Overrides(b));
    SplitAt(' ', a.sha, Overrides(a), b.sha, Overrides(b));
  }

  lemma DropPrefix(p: string, x: string, y: string)
    ensures |p + x + y| >= |p| && (p + x + y)[|p|..] == x + y
  {
  }

  /** Two module builds with the same arguments have the same sha and override text. */
  lemma BuildsShow(a: Request, b: Request)
    requires ModuleRepo(a.repo) && ModuleRepo(b.repo) && BuildArgs(a) == BuildArgs(b)
    ensures a.sha == b.sha && Overrides(a) == Overrides(b)
  {
    ModuleArgs(a);
    ModuleArgs(b);
    NoOwnSpec(a, b);
  }

  lemma ModuleArgs(req: Request)
    requires ModuleRepo(req.repo)
    ensures At(BuildArgs(req), "CHAIN_TAG") == req.sha && At(BuildArgs(req), "REPLACE_CMD") == ReplaceCmd(req)
  {
    KeysDiffer();
  }

  // ----- the exact condition, for dash-free shas

  /** A request that a build can come from: the repository has an owner and the sha is given. */
  predicate Buildable(req: Request) { (ModuleRepo(req.repo) || req.repo == "cometbft") && req.sha != "" }

  predicate DashFree(req: Request) { Buildable(req) && '-' !in req.sha }

  /** Every request with this tag, of whatever repository, asks for the same build. */
  ghost predicate TagFixesBuild(a: Request) {
    forall b :: DashFree(b) && Tag(b) == Tag(a) ==> BuildArgs(b) == BuildArgs(a)
  }

  predicate OneCleanOverride(a: Request) {
    Clean(a.sdk) && Clean(a.comet) && (a.sdk == "" || a.comet == "")
  }

  lemma ModuleTag(req: Request)
    requires ModuleRepo(req.repo)
    ensures Tag(req) == (req.repo + "-") + (req.sha + (SdkPart(Sanitize(req.sdk)) + CometPart(Sanitize(req.comet))))
  {
    SanitizeAt(req.sdk);
    SanitizeAt(req.comet);
    assert req.repo != "cometbft";
  }

  lemma SameModule(a: Request, b: Request)
    requires ModuleRepo(a.repo) && ModuleRepo(b.repo) && Tag(a) == Tag(b)
    ensures a.repo == b.repo
    ensures a.sha + (SdkPart(Sanitize(a.sdk)) + CometPart(Sanitize(a.comet))) ==
            b.sha + (SdkPart(Sanitize(b.sdk)) + CometPart(Sanitize(b.comet)))
  {
    ModuleTag(a);
    ModuleTag(b);
    assert Tag(a)[0] == a.repo[0] && Tag(b)[0] == b.repo[0];
    assert Tag(a)[|a.repo + "-"|..] == a.sha + (SdkPart(Sanitize(a.sdk)) + CometPart(Sanitize(a.comet)));
    assert Tag(b)[|b.repo + "-"|..] == b.sha + (SdkPart(Sanitize(b.sdk)) + CometPart(Sanitize(b.comet)));
  }

  lemma OverridesMatch(sdk: string, comet: string, x: string, y: string)
    requires '-' !in sdk && (sdk == "" || comet == "")
    requires SdkPart(sdk) + CometPart(comet) == SdkPart(x) + CometPart(y)
    ensures x == sdk && y == comet
  {
    Marker(sdk, comet);
    Marker(x, y);
    if sdk != "" {
      DropPrefix("-sdk-", sdk, "");
      DropPrefix("-sdk-", x, CometPart(y));
      assert sdk + "" == sdk;
      NoDashAfter(sdk, x, CometPart(y));
    } else {
      EmptyFirst(CometPart(comet));
      EmptyFirst(CometPart(y));
      CometReadBack(comet, y);
    }
  }

  lemma NoDashAfter(s: string, x: string, rest: string)
    requires s == x + rest && '-' !in s && (rest == "" || rest[0] == '-')
    ensures rest == "" && x == s
  {
  }

  /** With one clean override at most, the tag can be read back against any other request. */
  lemma OneCleanReadBack(a: Request, b: Request)
    requires PlainSha(a) && PlainSha(b) && OneCleanOverride(a) && Tag(b) == Tag(a)
    ensures b.repo == a.repo && b.sha == a.sha && b.sdk == a.sdk && b.comet == a.comet
  {
    SameModule(a, b);
    SanitizeKeeps(a.sdk);
    SanitizeKeeps(a.comet);
    SplitAt('-', a.sha, SdkPart(a.sdk) + CometPart(a.comet), b.sha, SdkPart(Sanitize(b.sdk)) + CometPart(Sanitize(b.comet)));
    OverridesMatch(a.sdk, a.comet, Sanitize(b.sdk), Sanitize(b.comet));
    SanitizedToClean(b.sdk, a.sdk);
    SanitizedToClean(b.comet, a.comet);
  }

  lemma SameLengthSdk(sdk: string, sdk': string, rest: string)
    requires sdk != "" && |sdk| == |sdk'| && SdkOverride(sdk) + rest == SdkOverride(sdk') + rest
    ensures sdk == sdk'
  {
    DropSdkSpec(sdk, rest);
    DropSdkSpec(sdk', rest);
    assert (sdk + rest)[..|sdk|] == sdk && (sdk' + rest)[..|sdk|] == sdk';
  }

  lemma SameSdkOverride(sdk: string, comet: string, comet': string)
    requires SdkOverride(sdk) + CometOverride(comet) == SdkOverride(sdk) + CometOverride(comet')
    ensures comet == comet'
  {
    var k := |SdkOverride(sdk)|;
    assert (SdkOverride(sdk) + CometOverride(comet))[k..] == CometOverride(comet);
    assert (SdkOverride(sdk) + CometOverride(comet'))[k..] == CometOverride(comet');
    CometOverrideReadBack(comet, comet');
  }

  /** An unclean override: its twin has the same tag and another build. */
  lemma UncleanCollides(a: Request) returns (b: Request)
    requires ModuleRepo(a.repo) && !(Clean(a.sdk) && Clean(a.comet))
    ensures b.repo == a.repo && b.sha == a.sha && Tag(b) == Tag(a) && BuildArgs(b) != BuildArgs(a)
  {
    if !Clean(a.sdk) {
      var sdk := Twin(a.sdk);
      b := a.(sdk := sdk);
      if BuildArgs(b) == BuildArgs(a) {
        BuildsShow(a, b);
        SameLengthSdk(a.sdk, sdk, CometOverride(a.comet));
      }
    } else {
      var comet := Twin(a.comet);
      b := a.(comet := comet);
      if BuildArgs(b) == BuildArgs(a) {
        BuildsShow(a, b);
        SameSdkOverride(a.sdk, a.comet, comet);
      }
    }
  }

  lemma {:induction false} SpelledOutTag(sdk: string, comet: string)
    requires sdk != "" && comet != "" && Clean(sdk) && Clean(comet)
    ensures var both := sdk + "-comet-" + comet;
            SdkPart(Sanitize(both)) + CometPart(Sanitize("")) == SdkPart(Sanitize(sdk)) + CometPart(Sanitize(comet))
  {
    var both := sdk + "-comet-" + comet;
    assert '@' !in "-comet-" && '/' !in "-comet-";
    SanitizeKeeps(sdk);
    SanitizeKeeps(comet);
    SanitizeKeeps(both);
    SpellOut("-sdk-", sdk, "-comet-", comet);
  }

  lemma SpellOut(p: string, x: string, q: string, y: string)
    ensures p + (x + q + y) + "" == p + x + (q + y)
  {
  }

  lemma SpelledOutOverrides(sdk: string, comet: string, both: string)
    requires sdk != "" && comet != "" && |both| > |sdk| && both[|sdk|] == '-'
    ensures SdkOverride(sdk) + CometOverride(comet) != SdkOverride(both) + CometOverride("")
  {
    DropSdkSpec(sdk, CometOverride(comet));
    DropSdkSpec(both, "");
    assert (sdk + CometOverride(comet))[|sdk|] == ' ' && (both + "")[|sdk|] == '-';
  }

  /** Two clean overrides: one sdk override that spells out both has the same tag. */
  lemma BothOverridesCollide(a: Request) returns (b: Request)
    requires ModuleRepo(a.repo) && a.sdk != "" && a.comet != "" && Clean(a.sdk) && Clean(a.comet)
    ensures b == a.(sdk := a.sdk + "-comet-" + a.comet, comet := "")
    ensures Tag(b) == Tag(a) && BuildArgs(b) != BuildArgs(a)
  {
    b := a.(sdk := a.sdk + "-comet-" + a.comet, comet := "");
    SpelledOutTag(a.sdk, a.comet);
    ModuleTag(a);
    ModuleTag(b);
    SpelledOutOverrides(a.sdk, a.comet, b.sdk);
    if BuildArgs(b) == BuildArgs(a) {
      BuildsShow(a, b);
    }
  }

  /** How a tag ends: the text before its last dash, when what follows has none. */
  lemma ModuleTagEnd(a: Request) returns (x: string, end: string)
    requires DashFree(a) && ModuleRepo(a.repo) && OneCleanOverride(a)
    ensures Tag(a) == x + "-" + end && '-' !in end
    ensures |x| > 1 && x[|x| - 2] != 'f'
  {
    if a.sdk == "" && a.comet == "" {
      x, end := a.repo, a.sha;
      NoOverridesTag(a);
    } else if a.sdk != "" {
      x, end := a.repo + "-" + a.sha + "-sdk", a.sdk;
      SdkText(a.sdk);
      OverrideTagEnd(a, "-sdk", a.sdk);
    } else {
      x, end := a.repo + "-" + a.sha + "-comet", a.comet;
      CometText(a.comet);
      OverrideTagEnd(a, "-comet", a.comet);
    }
  }

  lemma SdkText(sdk: string)
    requires sdk != ""
    ensures SdkPart(sdk) + CometPart("") == "-sdk" + "-" + sdk
  {
  }

  lemma CometText(comet: string)
    requires comet != ""
    ensures SdkPart("") + CometPart(comet) == "-comet" + "-" + comet
  {
    EmptyFirst(CometPart(comet));
  }

  lemma OverrideTagEnd(a: Request, mark: string, version: string)
    requires DashFree(a) && ModuleRepo(a.repo) && OneCleanOverride(a)
    requires SdkPart(a.sdk) + CometPart(a.comet) == mark + "-" + version && |mark| > 1
    ensures var x := a.repo + "-" + a.sha + mark;
            Tag(a) == x + "-" + version && |x| > 1 && x[|x| - 2] == mark[|mark| - 2]
  {
    SanitizeKeeps(a.sdk);
    SanitizeKeeps(a.comet);
    ModuleTag(a);
    FiveParts(a.repo, a.sha, mark, version);
    LastTwo(a.repo + "-" + a.sha, mark);
  }

  lemma FiveParts(repo: string, sha: string, mark: string, version: string)
    ensures (repo + "-") + (sha + (mark + "-" + version)) == (repo + "-" + sha + mark) + "-" + version
  {
  }

  lemma LastTwo(p: string, mark: string)
    requires |mark| > 1
    ensures (p + mark)[|p + mark| - 2] == mark[|mark| - 2]
  {
  }

  /** No module tag with one clean override is the tag of a cometbft request. */
  lemma NotACometTag(a: Request, b: Request)
    requires DashFree(a) && ModuleRepo(a.repo) && OneCleanOverride(a)
    requires b.repo == "cometbft" && '-' !in b.sha
    ensures Tag(a) != Tag(b)
  {
    var x, end := ModuleTagEnd(a);
    var y := b.image + "-" + b.version + "-cometbft";
    LastTwo(b.image + "-" + b.version, "-cometbft");
    CometTagEnd(b);
    if Tag(a) == Tag(b) {
      LastDash(x, end, y, b.sha);
    }
  }

  lemma CometTagEnd(b: Request)
    requires b.repo == "cometbft"
    ensures Tag(b) == (b.image + "-" + b.version + "-cometbft") + "-" + b.sha
    ensures Tag(b) == b.image + ("-" + (b.version + ("-cometbft-" + b.sha)))
  {
    assert b.image + "-" + b.version + "-" + "cometbft" == b.image + "-" + b.version + "-cometbft";
    Regroup(b.image, b.version, b.sha);
  }

  lemma Regroup(image: string, version: string, sha: string)
    ensures image + "-" + version + "-cometbft" + "-" + sha == image + ("-" + (version + ("-cometbft-" + sha)))
  {
  }

  lemma SameTagWhenPlain(a: Request, b: Request)
    requires DashFree(a) && ModuleRepo(a.repo) && OneCleanOverride(a) && DashFree(b) && Tag(b) == Tag(a)
    ensures b.repo == a.repo && b.sha == a.sha && b.sdk == a.sdk && b.comet == a.comet && BuildArgs(b) == BuildArgs(a)
  {
    if b.repo == "cometbft" {
      NotACometTag(a, b);
    } else {
      OneCleanReadBack(a, b);
    }
  }

  /** When a tag identifies its build, among all requests with a dash-free sha: exactly when it
      is a module tag with at most one override and that one is clean. */
  lemma TagIdentifiesBuild(a: Request)
    requires DashFree(a)
    ensures TagFixesBuild(a) <==> ModuleRepo(a.repo) && OneCleanOverride(a)
    ensures ModuleRepo(a.repo) && OneCleanOverride(a) ==>
              forall b :: DashFree(b) && Tag(b) == Tag(a) ==> b.repo == a.repo && b.sha == a.sha && b.sdk == a.sdk && b.comet == a.comet
  {
    if a.repo == "cometbft" {
      CometTagNeverIdentifies(a);
      assert DashFree(a.(comet := a.comet + "x"));
    } else if OneCleanOverride(a) {
      forall b | DashFree(b) && Tag(b) == Tag(a)
        ensures b.repo == a.repo && b.sha == a.sha && b.sdk == a.sdk && b.comet == a.comet && BuildArgs(b) == BuildArgs(a)
      {
        SameTagWhenPlain(a, b);
      }
    } else if Clean(a.sdk) && Clean(a.comet) {
      var b := BothOverridesCollide(a);
      assert DashFree(b);
    } else {
      var b := UncleanCollides(a);
      assert DashFree(b);
    }
  }

  // ----- the exact condition, for any sha

  ghost predicate TagFixesBuildForAnySha(a: Request) {
    forall b :: Buildable(b) && Tag(b) == Tag(a) ==> BuildArgs(b) == BuildArgs(a)
  }

  /** What an override with this marker leaves in a tag. */
  predicate Marked(text: string, mark: string) {
    mark <= text && |text| > |mark| && '@' !in text && '/' !in text
  }

  /** Some tail of the sha, after at least one character, reads as an override. */
  predicate ReadsAsOverride(sha: string) {
    exists k :: 0 < k <= |sha| && (Marked(sha[k..], "-sdk-") || Marked(sha[k..], "-comet-"))
  }

  predicate CometAt(tag: string, k: int) {
    0 <= k <= |tag| && "-cometbft-" <= tag[k..] && |tag[k..]| > 10
  }

  /** The tag splits as image, version and sha of a cometbft request. */
  predicate ReadsAsComet(tag: string) {
    exists i, k :: 0 <= i < k <= |tag| && tag[i] == '-' && CometAt(tag, k)
  }

  lemma {:induction false} OverridesAreMarked(sdk: string, comet: string)
    requires sdk != "" || comet != ""
    ensures var text := SdkPart(Sanitize(sdk)) + CometPart(Sanitize(comet)); Marked(text, "-sdk-") || Marked(text, "-comet-")
  {
    SanitizeAt(sdk);
    SanitizeAt(comet);
    PartsAreMarked(Sanitize(sdk), Sanitize(comet));
  }

  lemma PartsAreMarked(sdk: string, comet: string)
    requires (sdk != "" || comet != "") && '@' !in sdk && '/' !in sdk && '@' !in comet && '/' !in comet
    ensures var text := SdkPart(sdk) + CometPart(comet); Marked(text, "-sdk-") || Marked(text, "-comet-")
  {
    var text := SdkPart(sdk) + CometPart(comet);
    assert '@' !in "-sdk-" && '/' !in "-sdk-" && '@' !in "-comet-" && '/' !in "-comet-";
    if sdk != "" {
      assert text[..5] == "-sdk-";
    } else {
      assert text == "-comet-" + comet && text[..7] == "-comet-";
    }
  }

  lemma MarkedIsOverrides(text: string) returns (sdk: string, comet: string)
    requires Marked(text, "-sdk-") || Marked(text, "-comet-")
    ensures SdkPart(Sanitize(sdk)) + CometPart(Sanitize(comet)) == text != ""
  {
    if Marked(text, "-sdk-") {
      sdk, comet := text[5..], "";
      assert text == "-sdk-" + sdk && "-sdk-" + sdk + "" == "-sdk-" + sdk;
    } else {
      sdk, comet := "", text[7..];
      assert text == "-comet-" + comet && "" + ("-comet-" + comet) == "-comet-" + comet;
    }
    SanitizeKeeps(sdk);
    SanitizeKeeps(comet);
  }

  lemma NoOverridesTag(req: Request)
    requires ModuleRepo(req.repo) && req.sdk == "" && req.comet == ""
    ensures Tag(req) == (req.repo + "-") + req.sha
  {
    ModuleTag(req);
    assert SdkPart("") + CometPart("") == "" && req.sha + "" == req.sha;
  }

  /** Reading part of the sha as an override gives another build with the same tag. */
  lemma MarkedShaCollides(a: Request) returns (b: Request)
    requires ModuleRepo(a.repo) && a.sdk == "" && a.comet == "" && ReadsAsOverride(a.sha)
    ensures Buildable(b) && b.repo == a.repo && Tag(b) == Tag(a) && BuildArgs(b) != BuildArgs(a)
  {
    var k :| 0 < k <= |a.sha| && (Marked(a.sha[k..], "-sdk-") || Marked(a.sha[k..], "-comet-"));
    var sdk, comet := MarkedIsOverrides(a.sha[k..]);
    b := a.(sha := a.sha[..k], sdk := sdk, comet := comet);
    ShorterSha(a, b, a.sha[k..]);
    if BuildArgs(b) == BuildArgs(a) {
      BuildsShow(a, b);
    }
  }

  lemma ShorterSha(a: Request, b: Request, text: string)
    requires ModuleRepo(a.repo) && b.repo == a.repo && a.sdk == "" && a.comet == "" && a.sha == b.sha + text
    requires SdkPart(Sanitize(b.sdk)) + CometPart(Sanitize(b.comet)) == text
    ensures Tag(b) == Tag(a)
  {
    NoOverridesTag(a);
    ModuleTag(b);
  }

  /** Reading the tag as that of a cometbft request gives another build too. */
  lemma CometLookalike(a: Request) returns (b: Request)
    requires ModuleRepo(a.repo) && a.sdk == "" && a.comet == "" && ReadsAsComet(Tag(a))
    ensures Buildable(b) && b.repo == "cometbft" && Tag(b) == Tag(a) && BuildArgs(b) != BuildArgs(a)
  {
    var tag := Tag(a);
    var i, k :| 0 <= i < k <= |tag| && tag[i] == '-' && CometAt(tag, k);
    b := Request("cometbft", tag[k + 10..], "", "", tag[..i], tag[i + 1..k]);
    CometTagEnd(b);
    Reassemble(tag, i, k);
    OnlyCometHasCommand(a, b);
  }

  lemma Reassemble(tag: string, i: int, k: int)
    requires 0 <= i < k <= |tag| && tag[i] == '-' && CometAt(tag, k)
    ensures tag[..i] + ("-" + (tag[i + 1..k] + ("-cometbft-" + tag[k + 10..]))) == tag
  {
    assert tag[k..] == "-cometbft-" + tag[k..][10..] && tag[k..][10..] == tag[k + 10..];
    assert tag[i + 1..] == tag[i + 1..k] + tag[k..];
    assert tag == tag[..i] + ("-" + tag[i + 1..]);
  }

  lemma OnlyCometHasCommand(a: Request, b: Request)
    requires ModuleRepo(a.repo) && a.sdk == "" && a.comet == "" && b.repo == "cometbft"
    ensures BuildArgs(b) != BuildArgs(a)
  {
    ModuleArgs(a);
    CommandGiven(a);
    ReplaceText(a);
    OwnSpec(b);
    SpecMarks(b.sha);
    assert At(BuildArgs(b), "REPLACE_CMD") == ReplaceCmd(b) != "";
  }

  lemma CometReads(a: Request, b: Request)
    requires b.repo == "cometbft" && b.sha != "" && Tag(b) == Tag(a)
    ensures ReadsAsComet(Tag(a))
  {
    CometTagEnd(b);
    var i, k := |b.image|, |b.image| + 1 + |b.version|;
    var rest := b.version + ("-cometbft-" + b.sha);
    assert Tag(a)[i..] == "-" + rest && Tag(a)[i] == '-';
    assert Tag(a)[k..] == rest[|b.version|..] == "-cometbft-" + b.sha;
    assert CometAt(Tag(a), k);
  }

  /** When a tag identifies its build among all requests: exactly when it is a module tag
      without overrides, no tail of its sha reads as one, and the tag does not read as that of
      a cometbft request. */
  lemma TagIdentifiesBuildForAnySha(a: Request)
    requires Buildable(a)
    ensures TagFixesBuildForAnySha(a) <==>
            ModuleRepo(a.repo) && a.sdk == "" && a.comet == "" && !ReadsAsOverride(a.sha) && !ReadsAsComet(Tag(a))
  {
    if a.repo == "cometbft" {
      CometTagNeverIdentifies(a);
      assert Buildable(a.(comet := a.comet + "x"));
    } else if a.sdk != "" || a.comet != "" {
      ShaCollides(a);
    } else if ReadsAsOverride(a.sha) {
      var b := MarkedShaCollides(a);
    } else if ReadsAsComet(Tag(a)) {
      var b := CometLookalike(a);
    } else {
      forall b | Buildable(b) && Tag(b) == Tag(a)
        ensures BuildArgs(b) == BuildArgs(a)
      {
        if b.repo == "cometbft" {
          CometReads(a, b);
        } else {
          UnmarkedReadBack(a, b);
        }
      }
    }
  }

  lemma ShaCollides(a: Request)
    requires Buildable(a) && ModuleRepo(a.repo) && (a.sdk != "" || a.comet != "")
    ensures !TagFixesBuildForAnySha(a)
  {
    var text := SdkPart(Sanitize(a.sdk)) + CometPart(Sanitize(a.comet));
    var b := a.(sha := a.sha + text, sdk := "", comet := "");
    OverridesAreMarked(a.sdk, a.comet);
    ModuleTag(a);
    NoOverridesTag(b);
    assert Buildable(b) && Tag(b) == Tag(a);
    if BuildArgs(b) == BuildArgs(a) {
      BuildsShow(a, b);
    }
  }

  lemma TailReadsAsOverride(sha: string, x: string, text: string)
    requires x != "" && sha == x + text && (Marked(text, "-sdk-") || Marked(text, "-comet-"))
    ensures ReadsAsOverride(sha)
  {
    assert sha[|x|..] == text;
  }

  lemma UnmarkedReadBack(a: Request, b: Request)
    requires ModuleRepo(a.repo) && ModuleRepo(b.repo) && b.sha != "" && Tag(b) == Tag(a)
    requires a.sdk == "" && a.comet == "" && !ReadsAsOverride(a.sha)
    ensures b.repo == a.repo && b.sha == a.sha && b.sdk == "" && b.comet == ""
  {
    SameModule(a, b);
    assert SdkPart("") + CometPart("") == "" && a.sha + "" == a.sha && b.sha + "" == b.sha;
    if b.sdk != "" || b.comet != "" {
      OverridesAreMarked(b.sdk, b.comet);
      TailReadsAsOverride(a.sha, b.sha, SdkPart(Sanitize(b.sdk)) + CometPart(Sanitize(b.comet)));
    }
  }

  /** Failing inputs: a sha that spells out an override, and one that makes the tag read as that
      of a cometbft request. */
  lemma DashedVersionsCollide()
    ensures var a, b := Request("evm", "v1-sdk-v2", "", "", "evm", ""), Request("evm", "v1", "v2", "", "evm", "");
            Tag(a) == Tag(b) && BuildArgs(a) != BuildArgs(b)
    ensures var a, b := Request("gaia", "up-cometbft-v1", "", "", "gaia", ""), Request("cometbft", "v1", "", "", "gaia", "up");
            Tag(a) == Tag(b) && BuildArgs(a) != BuildArgs(b)
  {
    SpelledOutSha();
    assert "up" + "-cometbft-" + "v1" == "up-cometbft-v1" && ModuleRepo("gaia");
    SpelledOutComet("gaia", "up", "v1");
  }

  lemma SpelledOutComet(repo: string, version: string, sha: string)
    requires ModuleRepo(repo)
    ensures var a, b := Request(repo, version + "-cometbft-" + sha, "", "", repo, ""), Request("cometbft", sha, "", "", repo, version);
            Tag(a) == Tag(b) && BuildArgs(a) != BuildArgs(b)
  {
    var a, b := Request(repo, version + "-cometbft-" + sha, "", "", repo, ""), Request("cometbft", sha, "", "", repo, version);
    NoOverridesTag(a);
    CometTagEnd(b);
    Reword(repo, version, "-cometbft-", sha);
    OnlyCometHasCommand(a, b);
  }

  lemma Reword(repo: string, version: string, mark: string, sha: string)
    ensures repo + ("-" + (version + (mark + sha))) == (repo + "-") + (version + mark + sha)
  {
  }

  lemma SpelledOutSha()
    ensures var a, b := Request("evm", "v1-sdk-v2", "", "", "evm", ""), Request("evm", "v1", "v2", "", "evm", "");
            Tag(a) == Tag(b) && BuildArgs(a) != BuildArgs(b)
  {
    var a, b := Request("evm", "v1-sdk-v2", "", "", "evm", ""), Request("evm", "v1", "v2", "", "evm", "");
    SanitizeKeeps("v2");
    ModuleTag(b);
    NoOverridesTag(a);
    assert "v1" + ("-sdk-" + "v2" + "") == "v1-sdk-v2";
    ModuleArgs(a);
    ModuleArgs(b);
    assert |"v1-sdk-v2"| == 9 && |"v1"| == 2;
  }

  // ----- cometbft builds

  /** The parts of a cometbft tag can be told apart: the sha has no dash, and the images agree
      or have none. */
  predicate Readable(a: Request, b: Request) {
    && a.repo == b.repo == "cometbft" && '-' !in a.sha && '-' !in b.sha
    && (a.image == b.image || ('-' !in a.image && '-' !in b.image))
  }

  /** The cometbft tag leaves the overrides out: it determines image, version and sha, and two
      requests with one tag ask for the same build exactly when their overrides agree. */
  lemma CometTagIgnoresOverrides(a: Request, b: Request)
    requires Readable(a, b) && ' ' !in a.sdk && ' ' !in b.sdk
    ensures Tag(a) == Tag(b) <==> a.image == b.image && a.version == b.version && a.sha == b.sha
    ensures Tag(a) == Tag(b) ==> (BuildArgs(a) == BuildArgs(b) <==> a.sdk == b.sdk && a.comet == b.comet)
  {
    if Tag(a) == Tag(b) {
      CometTagReadBack(a, b);
      CometBuilds(a, b);
      SameShaCommands(a, b);
    }
  }

  lemma SameShaCommands(a: Request, b: Request)
    requires a.repo == b.repo == "cometbft" && a.sha == b.sha && ' ' !in a.sdk && ' ' !in b.sdk
    ensures ReplaceCmd(a) == ReplaceCmd(b) <==> a.sdk == b.sdk && a.comet == b.comet
  {
    OwnSpec(a);
    OwnSpec(b);
    if ReplaceCmd(a) == ReplaceCmd(b) {
      var k := |CometSpec(a.sha)|;
      assert (CometSpec(a.sha) + Overrides(a))[k..] == Overrides(a) && (CometSpec(b.sha) + Overrides(b))[k..] == Overrides(b);
      OverridesDetermine(a, b);
    }
  }

  lemma CometTagReadBack(a: Request, b: Request)
    requires Readable(a, b) && Tag(a) == Tag(b)
    ensures a.image == b.image && a.version == b.version && a.sha == b.sha
  {
    var va, vb := a.version + "-" + "cometbft" + "-" + a.sha, b.version + "-" + "cometbft" + "-" + b.sha;
    assert Tag(a) == a.image + ("-" + va) && Tag(b) == b.image + ("-" + vb);
    ImageReadBack(a.image, va, b.image, vb);
    LastDash(a.version + "-" + "cometbft", a.sha, b.version + "-" + "cometbft", b.sha);
    LastDash(a.version, "cometbft", b.version, "cometbft");
  }

  lemma ImageReadBack(image: string, rest: string, image': string, rest': string)
    requires image == image' || ('-' !in image && '-' !in image')
    requires image + ("-" + rest) == image' + ("-" + rest')
    ensures image == image' && rest == rest'
  {
    if image == image' {
      assert (image + ("-" + rest))[|image| + 1..] == rest && (image' + ("-" + rest'))[|image| + 1..] == rest';
    } else {
      SplitAt('-', image, "-" + rest, image', "-" + rest');
    }
  }

  /** A dash-free end is what follows the last dash. */
  lemma LastDash(x: string, end: string, x': string, end': string)
    requires '-' !in end && '-' !in end' && x + "-" + end == x' + "-" + end'
    ensures x == x' && end == end'
  {
    LaterDash(x, end, x', end');
    LaterDash(x', end', x, end);
    var s := x + "-" + end;
    assert s[..|x|] == x && s[|x| + 1..] == end;
    assert |x'| == |x| ==> s[..|x'|] == x' && s[|x'| + 1..] == end';
  }

  lemma LaterDash(x: string, end: string, x': string, end': string)
    requires '-' !in end
    ensures |x| < |x'| ==> x + "-" + end != x' + "-" + end'
  {
    if |x| < |x'| < |x| + 1 + |end| {
      assert (x + "-" + end)[|x'|] == end[|x'| - |x| - 1] && end[|x'| - |x| - 1] in end;
      assert (x' + "-" + end')[|x'|] == '-';
    }
  }

  lemma CometBuilds(a: Request, b: Request)
    requires a.repo == b.repo == "cometbft" && Tag(a) == Tag(b)
    ensures BuildArgs(a) == BuildArgs(b) <==> a.version == b.version && ReplaceCmd(a) == ReplaceCmd(b)
  {
    var x, y := BuildArgs(a), BuildArgs(b);
    assert x["REPLACE_CMD"] == ReplaceCmd(a) && y["REPLACE_CMD"] == ReplaceCmd(b);
    assert x["CHAIN_TAG"] == a.version && y["CHAIN_TAG"] == b.version;
  }

  /** No cometbft tag identifies its build: one more letter in the comet override leaves the
      tag as it is and changes what is built. */
  lemma CometTagNeverIdentifies(a: Request)
    requires a.repo == "cometbft"
    ensures var b := a.(comet := a.comet + "x"); Tag(b) == Tag(a) && BuildArgs(b) != BuildArgs(a)
  {
    var b := a.(comet := a.comet + "x");
    OwnSpec(a);
    OwnSpec(b);
    CometBuilds(a, b);
    LongerOverride(a.comet);
  }

  lemma LongerOverride(comet: string)
    ensures |CometOverride(comet)| < |CometOverride(comet + "x")|
  {
    SpecTail(comet);
    SpecTail(comet + "x");
  }
}
