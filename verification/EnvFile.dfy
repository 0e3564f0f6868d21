/** The generated environment file and the shell that sources it. */
module EnvFile {
  import opened Common
  import opened Order
  import Text

  // ----- the printer

  function HeaderText(): (r: string)
    ensures '\n' !in r
  {
    assert '\n' !in " generated" && '\n' !in " by ironbird" && '\n' !in " cmd/" && '\n' !in "local-" && '\n' !in "report-runner";
    " generated" + " by ironbird" + " cmd/" + "local-" + "report-runner"
  }

  function Header(): string { "#" + HeaderText() + "\n" }

  /** White space as strings.TrimSpace knows it. */
  predicate IsSpace(c: char) {
    var u := c as int;
    || 9 <= u <= 13 || u == 32 || u == 0x85 || u == 0xA0 || u == 0x1680 || 0x2000 <= u <= 0x200A
    || u == 0x2028 || u == 0x2029 || u == 0x202F || u == 0x205F || u == 0x3000
  }

  predicate Blank(s: string) {
    forall i :: 0 <= i < |s| ==> IsSpace(s[i])
  }

  function TrimLeft(s: string): string {
    if s != "" && IsSpace(s[0]) then TrimLeft(s[1..]) else s
  }

  function TrimRight(s: string): string {
    if s != "" && IsSpace(s[|s| - 1]) then TrimRight(s[..|s| - 1]) else s
  }

  /** Blank is what nothing is left of when both ends are trimmed. */
  lemma {:induction false} BlankMeans(s: string)
    ensures Blank(s) <==> TrimRight(TrimLeft(s)) == ""
  {
    if s != "" && IsSpace(s[0]) {
      BlankMeans(s[1..]);
      assert forall i :: 0 < i < |s| ==> s[i] == s[1..][i - 1];
    } else if s != "" {
      KeepsFirst(s);
    }
  }

  lemma {:induction false} KeepsFirst(s: string)
    requires s != "" && !IsSpace(s[0])
    ensures TrimRight(s) != "" && TrimRight(s)[0] == s[0]
  {
    if IsSpace(s[|s| - 1]) {
      KeepsFirst(s[..|s| - 1]);
    }
  }

  /** The Unicode characters with the White_Space property, one by one. */
  const WHITE_SPACE: set<int> :=
    {0x9, 0xA, 0xB, 0xC, 0xD, 0x20, 0x85, 0xA0, 0x1680, 0x2000, 0x2001, 0x2002, 0x2003, 0x2004, 0x2005, 0x2006, 0x2007,
     0x2008, 0x2009, 0x200A, 0x2028, 0x2029, 0x202F, 0x205F, 0x3000}

  lemma SpacesAreWhite(c: char)
    ensures IsSpace(c) <==> c as int in WHITE_SPACE
  {
  }

  function ReplaceQuotes(s: string): string {
    if s == "" then ""
    else (if s[0] == '\'' then "'\"'\"'" else [s[0]]) + ReplaceQuotes(s[1..])
  }

  function ShellQuote(s: string): string {
    if s == "" then "''" else "'" + ReplaceQuotes(s) + "'"
  }

  ghost function KeptKeys(env: map<string, string>): set<string> {
    set k | k in env && !Blank(k) && !Blank(env[k])
  }

  ghost function Kept(env: map<string, string>): map<string, string> {
    map k | k in KeptKeys(env) :: env[k]
  }

  function LineFor(k: string, v: string): string {
    k + "=" + ShellQuote(v) + "\n"
  }

  ghost function LinesFor(keys: seq<string>, env: map<string, string>): string {
    if keys == [] then ""
    else LinesFor(keys[..|keys| - 1], env) + LineFor(keys[|keys| - 1], At(env, keys[|keys| - 1]))
  }

  ghost function FileText(env: map<string, string>): string {
    Header() + LinesFor(Text.SortedStrings(KeptKeys(env)), env)
  }

  lemma SortedKept(env: map<string, string>)
    ensures forall k :: k in Text.SortedStrings(KeptKeys(env)) <==> k in KeptKeys(env)
    ensures Distinct(Text.SortedStrings(KeptKeys(env)))
  {
    var keys := Text.SortedStrings(KeptKeys(env));
    Text.SortedStringsListSet(KeptKeys(env));
    assert forall k :: k in keys <==> k in Elements(keys);
  }

  method ShellEnvFile(env: map<string, string>) returns (text: string)
    ensures text == FileText(env)
  {
    var keys := NonBlankKeys(env);
    text := WriteLines(Header(), keys, env);
  }

  method WriteLines(header: string, keys: seq<string>, env: map<string, string>) returns (text: string)
    ensures text == header + LinesFor(keys, env)
  {
    text := header;
    for i := 0 to |keys|
      invariant text == header + LinesFor(keys[..i], env)
    {
      assert keys[..i + 1][..i] == keys[..i];
      AppendLine(header, LinesFor(keys[..i], env), keys[i], At(env, keys[i]));
      text := text + keys[i];
      text := text + "=";
      text := text + ShellQuote(At(env, keys[i]));
      text := text + "\n";
    }
    assert keys[..|keys|] == keys;
  }

  lemma AppendLine(header: string, lines: string, k: string, v: string)
    ensures header + lines + k + "=" + ShellQuote(v) + "\n" == header + (lines + LineFor(k, v))
  {
  }

  method NonBlankKeys(env: map<string, string>) returns (keys: seq<string>)
    ensures keys == Text.SortedStrings(KeptKeys(env))
  {
    keys := [];
    var left := env.Keys;
    while left != {}
      invariant left <= env.Keys
      invariant Distinct(keys) && Elements(keys) == KeptKeys(env) - left
      decreases |left|
    {
      var key :| key in left;  // any order
      left := left - {key};
      if !Blank(key) && !Blank(env[key]) {
        ElementsAppend(keys, key);
        keys := keys + [key];
      }
    }
    assert KeptKeys(env) - left == KeptKeys(env);
    Text.CollectStrings(keys);
    keys := Text.SortStrings(keys);
  }

  // ----- a shell reader for assignment files

  /** Where the reader stands; the quoting modes follow sections 2.2.1 to 2.2.3 of the
      POSIX.1-2017 Shell Command Language. Anything but assignments and comments, and
      anything the shell would expand, is Bad. */
  datatype Mode = LineStart | Comment | Name | Word | Single | Double | Escape | DoubleEscape | Bad

  datatype Reader = Reader(mode: Mode, name: string, value: string, bound: seq<(string, string)>)

  predicate NameStart(c: char) { 'a' <= c <= 'z' || 'A' <= c <= 'Z' || c == '_' }

  predicate NameChar(c: char) { NameStart(c) || '0' <= c <= '9' }

  predicate Identifier(s: string) {
    s != "" && NameStart(s[0]) && forall i :: 0 <= i < |s| ==> NameChar(s[i])
  }

  predicate PlainChar(c: char) { NameChar(c) || c in "./-+,:@%=#" }

  function Step(r: Reader, c: char): Reader {
    match r.mode
    case LineStart =>
      if c == '#' then r.(mode := Comment)
      else if c == '\n' || c == ' ' || c == '\t' then r
      else if NameStart(c) then r.(mode := Name, name := [c])
      else r.(mode := Bad)
    case Comment =>
      if c == '\n' then r.(mode := LineStart) else r
    case Name =>
      if c == '=' then r.(mode := Word, value := "")
      else if NameChar(c) then r.(name := r.name + [c])
      else r.(mode := Bad)
    case Word =>
      if c == '\'' then r.(mode := Single)
      else if c == '"' then r.(mode := Double)
      else if c == '\\' then r.(mode := Escape)
      else if c == '\n' || c == ' ' || c == '\t' then r.(mode := LineStart, bound := r.bound + [(r.name, r.value)])
      else if PlainChar(c) then r.(value := r.value + [c])
      else r.(mode := Bad)
    case Single =>
      if c == '\'' then r.(mode := Word) else r.(value := r.value + [c])
    case Double =>
      if c == '"' then r.(mode := Word)
      else if c == '\\' then r.(mode := DoubleEscape)
      else if c == '$' || c == '`' then r.(mode := Bad)
      else r.(value := r.value + [c])
    case Escape =>
      if c == '\n' then r.(mode := Word) else r.(mode := Word, value := r.value + [c])
    case DoubleEscape =>
      if c == '\n' then r.(mode := Double)
      else if c in "$`\"\\" then r.(mode := Double, value := r.value + [c])
      else r.(mode := Double, value := r.value + "\\" + [c])
    case Bad => r
  }

  function Read(r: Reader, s: string): Reader
    decreases |s|
  {
    if s == "" then r else Read(Step(r, s[0]), s[1..])
  }

  /** The assignments a sourced file makes, or None when it does anything else. */
  function SourceFile(s: string): Option<seq<(string, string)>> {
    var r := Read(Reader(LineStart, "", "", []), s);
    match r.mode
    case LineStart | Comment => Some(r.bound)
    case Word => Some(r.bound + [(r.name, r.value)])
    case _ => None
  }

  /** The environment after the assignments: the last one of a name wins. */
  function Bindings(bound: seq<(string, string)>): map<string, string> {
    if bound == [] then map[]
    else
      var z := |bound| - 1;
      Bindings(bound[..z])[bound[z].0 := bound[z].1]
  }

  lemma {:induction false} ReadAppend(r: Reader, a: string, b: string)
    ensures Read(r, a + b) == Read(Read(r, a), b)
    decreases |a|
  {
    if a == "" {
      assert a + b == b;
    } else {
      assert (a + b)[1..] == a[1..] + b;
      ReadAppend(Step(r, a[0]), a[1..], b);
    }
  }

  lemma {:induction false} ReadOne(r: Reader, c: char)
    ensures Read(r, [c]) == Step(r, c)
  {
    assert [c][1..] == "";
  }

  lemma {:induction false} ReadComment(r: Reader, s: string)
    requires r.mode == Comment && '\n' !in s
    ensures Read(r, s) == r
    decreases |s|
  {
    if s != "" {
      ReadComment(r, s[1..]);
    }
  }

  lemma ReadHeader()
    ensures Read(Reader(LineStart, "", "", []), Header()) == Reader(LineStart, "", "", [])
  {
    var r := Reader(LineStart, "", "", []);
    var text := HeaderText();
    ReadAppend(r, "#" + text, "\n");
    ReadAppend(r, "#", text);
    ReadOne(r, '#');
    ReadComment(r.(mode := Comment), text);
    ReadOne(r.(mode := Comment), '\n');
  }

  lemma {:induction false} ReadQuotes(r: Reader, s: string)
    requires r.mode == Single
    ensures Read(r, ReplaceQuotes(s)) == r.(value := r.value + s)
    decreases |s|
  {
    if s == "" {
      assert r.value + s == r.value;
    } else {
      var first := if s[0] == '\'' then "'\"'\"'" else [s[0]];
      ReadAppend(r, first, ReplaceQuotes(s[1..]));
      if s[0] == '\'' {
        ReadEscapedQuote(r);
      } else {
        ReadOne(r, s[0]);
      }
      assert Read(r, first) == r.(value := r.value + [s[0]]);
      ReadQuotes(r.(value := r.value + [s[0]]), s[1..]);
      assert r.value + [s[0]] + s[1..] == r.value + s;
    }
  }

  lemma {:induction false} ReadEscapedQuote(r: Reader)
    requires r.mode == Single
    ensures Read(r, "'\"'\"'") == r.(value := r.value + "'")
  {
    var t1, t2, t3, t4 := "\"'\"'", "'\"'", "\"'", "'";
    var r1 := r.(mode := Word);
    var r2 := r1.(mode := Double);
    var r3 := r2.(value := r.value + "'");
    assert "'\"'\"'"[1..] == t1 && t1[1..] == t2 && t2[1..] == t3 && t3[1..] == t4;
    ReadOne(r3.(mode := Word), '\'');
    assert Read(r3, t3) == Read(r3.(mode := Word), t4);
    assert Read(r2, t2) == Read(r3, t3);
    assert Read(r1, t1) == Read(r2, t2);
  }

  /** A quoted value reads back as itself, whatever it holds. */
  lemma {:induction false} ReadQuoted(r: Reader, s: string)
    requires r.mode == Word && r.value == ""
    ensures Read(r, ShellQuote(s)) == r.(value := s)
  {
    var quoting := r.(mode := Single);
    if s == "" {
      assert "''"[1..] == "'";
      ReadOne(quoting, '\'');
    } else {
      ReadAppend(r, "'" + ReplaceQuotes(s), "'");
      ReadAppend(r, "'", ReplaceQuotes(s));
      ReadOne(r, '\'');
      ReadQuotes(quoting, s);
      ReadOne(quoting.(value := s), '\'');
      assert quoting.value + s == s;
    }
  }

  lemma {:induction false} ReadName(r: Reader, k: string)
    requires r.mode == Name && forall i :: 0 <= i < |k| ==> NameChar(k[i])
    ensures Read(r, k) == r.(name := r.name + k)
    decreases |k|
  {
    if k == "" {
      assert r.name + k == r.name;
    } else {
      ReadName(r.(name := r.name + [k[0]]), k[1..]);
      assert r.name + [k[0]] + k[1..] == r.name + k;
    }
  }

  lemma {:induction false} ReadLine(r: Reader, k: string, v: string)
    requires r.mode == LineStart && Identifier(k)
    ensures Read(r, LineFor(k, v)) == Reader(LineStart, k, v, r.bound + [(k, v)])
  {
    var named := r.(mode := Name, name := k);
    assert Read(r, k) == named by {
      ReadName(r.(mode := Name, name := [k[0]]), k[1..]);
      assert [k[0]] + k[1..] == k;
    }
    ReadAppend(r, k + "=" + ShellQuote(v), "\n");
    ReadAppend(r, k + "=", ShellQuote(v));
    ReadAppend(r, k, "=");
    ReadOne(named, '=');
    ReadQuoted(named.(mode := Word, value := ""), v);
    ReadOne(named.(mode := Word, value := v), '\n');
  }

  lemma {:induction false} ReadOneMore(r: Reader, lines: string, k: string, v: string)
    requires Read(r, lines).mode == LineStart && Identifier(k)
    ensures Read(r, lines + LineFor(k, v)) == Reader(LineStart, k, v, Read(r, lines).bound + [(k, v)])
  {
    ReadAppend(r, lines, LineFor(k, v));
    ReadLine(Read(r, lines), k, v);
  }

  ghost function PairsFor(keys: seq<string>, env: map<string, string>): (r: seq<(string, string)>)
    ensures |r| == |keys|
  {
    if keys == [] then []
    else PairsFor(keys[..|keys| - 1], env) + [(keys[|keys| - 1], At(env, keys[|keys| - 1]))]
  }

  lemma {:induction false} ReadLines(r: Reader, keys: seq<string>, env: map<string, string>)
    requires r.mode == LineStart && forall k :: k in keys ==> Identifier(k)
    ensures var after := Read(r, LinesFor(keys, env));
            after.mode == LineStart && after.bound == r.bound + PairsFor(keys, env)
  {
    if keys != [] {
      var z := |keys| - 1;
      assert forall k :: k in keys[..z] ==> k in keys;
      ReadLines(r, keys[..z], env);
      assert keys[z] in keys;
      var last := (keys[z], At(env, keys[z]));
      ReadOneMore(r, LinesFor(keys[..z], env), keys[z], last.1);
      assert PairsFor(keys, env) == PairsFor(keys[..z], env) + [last];
      assert r.bound + (PairsFor(keys[..z], env) + [last]) == r.bound + PairsFor(keys[..z], env) + [last];
    }
  }

  lemma {:induction false} PairsCount(keys: seq<string>, env: map<string, string>)
    ensures |PairsFor(keys, env)| == |keys|
  {
    if keys != [] {
      PairsCount(keys[..|keys| - 1], env);
    }
  }

  lemma {:induction false} BindingsOfPairs(keys: seq<string>, env: map<string, string>)
    ensures Bindings(PairsFor(keys, env)) == map k | k in keys :: At(env, k)
  {
    if keys != [] {
      var z := |keys| - 1;
      BindingsOfPairs(keys[..z], env);
      PairsCount(keys[..z], env);
      assert PairsFor(keys, env)[..z] == PairsFor(keys[..z], env);
      assert forall k :: k in keys <==> k in keys[..z] || k == keys[z];
    }
  }

  // ----- only identifiers can come out of the reader

  ghost predicate NamesAreIdentifiers(r: Reader) {
    && (forall i :: 0 <= i < |r.bound| ==> Identifier(r.bound[i].0))
    && (r.mode in {Name, Word, Single, Double, Escape, DoubleEscape} ==> Identifier(r.name))
  }

  lemma {:induction false} ReaderNames(r: Reader, s: string)
    requires NamesAreIdentifiers(r)
    ensures NamesAreIdentifiers(Read(r, s))
    decreases |s|
  {
    if s != "" {
      ReaderNames(Step(r, s[0]), s[1..]);
    }
  }

  lemma {:induction false} BindingNames(bound: seq<(string, string)>)
    requires forall i :: 0 <= i < |bound| ==> Identifier(bound[i].0)
    ensures forall k :: k in Bindings(bound) ==> Identifier(k)
  {
    if bound != [] {
      BindingNames(bound[..|bound| - 1]);
    }
  }

  ghost function SortedKeys(env: map<string, string>): (keys: seq<string>)
    ensures forall k :: k in keys <==> k in KeptKeys(env)
  {
    SortedKept(env);
    Text.SortedStrings(KeptKeys(env))
  }

  lemma {:induction false} FileReads(env: map<string, string>)
    requires forall k :: k in KeptKeys(env) ==> Identifier(k)
    ensures SourceFile(FileText(env)) == Some(PairsFor(SortedKeys(env), env))
  {
    var start := Reader(LineStart, "", "", []);
    var keys := SortedKeys(env);
    ReadAppend(start, Header(), LinesFor(keys, env));
    ReadHeader();
    ReadLines(start, keys, env);
    assert [] + PairsFor(keys, env) == PairsFor(keys, env);
  }

  lemma SourcedNames(s: string)
    requires SourceFile(s).Some?
    ensures forall k :: k in Bindings(SourceFile(s).value) ==> Identifier(k)
  {
    ReaderNames(Reader(LineStart, "", "", []), s);
    BindingNames(SourceFile(s).value);
  }

  /** Round trip with its exact condition: sourcing the file yields exactly the entries with
      non-blank values if and only if their names are shell identifiers. */
  lemma RoundTrip(env: map<string, string>)
    ensures (SourceFile(FileText(env)).Some? && Bindings(SourceFile(FileText(env)).value) == Kept(env)) <==>
            forall k :: k in KeptKeys(env) ==> Identifier(k)
  {
    var text := FileText(env);
    if forall k :: k in KeptKeys(env) ==> Identifier(k) {
      FileReads(env);
      BindingsOfPairs(SortedKeys(env), env);
      assert (map k | k in SortedKeys(env) :: At(env, k)) == Kept(env);
    } else if SourceFile(text).Some? {
      SourcedNames(text);
      assert KeptKeys(env) == Kept(env).Keys;
    }
  }

  /** A failing input: a name with a dash. */
  lemma DashedNameIsNotSourced(v: string)
    requires !Blank(v)
    ensures var env := map["a-b" := v];
            !(SourceFile(FileText(env)).Some? && Bindings(SourceFile(FileText(env)).value) == Kept(env))
  {
    var env := map["a-b" := v];
    assert "a-b"[0] == 'a' && "a-b"[1] == '-';
    assert "a-b" in KeptKeys(env) && !Identifier("a-b");
    RoundTrip(env);
  }

  /** For identifier names the assignments come out once each, in ascending order of name. */
  lemma AssignmentsInOrder(env: map<string, string>)
    requires forall k :: k in KeptKeys(env) ==> Identifier(k)
    ensures SourceFile(FileText(env)).Some?
    ensures var bound := SourceFile(FileText(env)).value;
            && |bound| == |KeptKeys(env)|
            && forall i, j :: 0 <= i < j < |bound| ==> Text.Leq(bound[i].0, bound[j].0) && bound[i].0 != bound[j].0
  {
    FileReads(env);
    Text.SortedStringsListSet(KeptKeys(env));
    PairsAt(SortedKeys(env), env);
  }

  lemma {:induction false} PairsAt(keys: seq<string>, env: map<string, string>)
    ensures forall i :: 0 <= i < |keys| ==> PairsFor(keys, env)[i].0 == keys[i]
  {
    if keys != [] {
      PairsAt(keys[..|keys| - 1], env);
    }
  }
}
