/**
 JSON pointers: escaping by two passes of `strings.ReplaceAll`, splitting at slashes, and which keys survive unescaped.
 */
module JsonPointer {

  /** `strings.ReplaceAll`: non-overlapping occurrences of `pat`, from the left. */
  function ReplaceAll(s: string, pat: string, repl: string): string
    requires pat != ""
    decreases |s|
  {
    if |s| < |pat| then s
    else if s[..|pat|] == pat then repl + ReplaceAll(s[|pat|..], pat, repl)
    else [s[0]] + ReplaceAll(s[1..], pat, repl)
  }

  /** `strings.Split(s, "/")`. */
  function Split(s: string): (r: seq<string>)
    ensures |r| >= 1
  {
    if s == "" then [""]
    else
      var rest := Split(s[1..]);
      if s[0] == '/' then [""] + rest else [[s[0]] + rest[0]] + rest[1..]
  }

  function Escape(tok: string): string {
    ReplaceAll(ReplaceAll(tok, "~", "~0"), "/", "~1")
  }

  function Unescape(tok: string): string {
    ReplaceAll(ReplaceAll(tok, "~1", "/"), "~0", "~")
  }

  datatype Pointer = Tokens(toks: seq<string>) | InvalidPointer

  function UnescapeAll(raw: seq<string>): (r: seq<string>)
    ensures |r| == |raw| && forall i :: 0 <= i < |r| ==> r[i] == Unescape(raw[i])
  {
    seq(|raw|, i requires 0 <= i < |raw| => Unescape(raw[i]))
  }

  function Parse(ptr: string): Pointer {
    if ptr == "" then Tokens([])
    else if ptr[0] != '/' then InvalidPointer
    else Tokens(UnescapeAll(Split(ptr[1..])))
  }

  function Format(toks: seq<string>): string {
    if toks == [] then "" else "/" + Escape(toks[0]) + Format(toks[1..])
  }

  method ParsePointer(ptr: string) returns (r: Pointer)
    ensures r == Parse(ptr)
  {
    if ptr == "" {
      return Tokens([]);
    }
    if ptr[0] != '/' {
      return InvalidPointer;
    }
    var raw := Split(ptr[1..]);
    var toks := [];
    for i := 0 to |raw|
      invariant |toks| == i && forall j :: 0 <= j < i ==> toks[j] == Unescape(raw[j])
    {
      var tok := ReplaceAll(raw[i], "~1", "/");
      tok := ReplaceAll(tok, "~0", "~");
      toks := toks + [tok];
    }
    assert toks == UnescapeAll(raw);
    r := Tokens(toks);
  }

  method FormatPointer(toks: seq<string>) returns (ptr: string)
    ensures ptr == Format(toks)
  {
    ptr := "";
    for i := 0 to |toks|
      invariant Format(toks) == ptr + Format(toks[i..])
    {
      ghost var done, rest := ptr, Format(toks[i + 1..]);
      ptr := ptr + "/";
      var escaped := ReplaceAll(toks[i], "~", "~0");
      escaped := ReplaceAll(escaped, "/", "~1");
      ptr := ptr + escaped;
      assert toks[i..][1..] == toks[i + 1..];
      assert Format(toks[i..]) == "/" + escaped + rest;
      assert done + ("/" + escaped + rest) == done + "/" + escaped + rest;
    }
    assert toks[|toks|..] == [];
  }

  // ---- Escaping, one character at a time ----

  function EscapeChar(c: char): string {
    if c == '~' then "~0" else if c == '/' then "~1" else [c]
  }

  function EscapeChars(s: string): string {
    if s == "" then "" else EscapeChar(s[0]) + EscapeChars(s[1..])
  }

  /** Only the tildes escaped: what lies between the two passes, in either direction. */
  function EscapeTildes(s: string): string {
    if s == "" then "" else (if s[0] == '~' then "~0" else [s[0]]) + EscapeTildes(s[1..])
  }

  lemma {:induction false} FirstPass(s: string)
    ensures ReplaceAll(s, "~", "~0") == EscapeTildes(s)
  {
    if s != "" {
      FirstPass(s[1..]);
    }
  }

  lemma {:induction false} ReplaceHead(c: char, rest: string)
    ensures ReplaceAll([c] + rest, "/", "~1") == (if c == '/' then "~1" else [c]) + ReplaceAll(rest, "/", "~1")
  {
    assert ([c] + rest)[1..] == rest && ([c] + rest)[..1] == [c];
  }

  lemma {:induction false} SecondPass(s: string)
    ensures ReplaceAll(EscapeTildes(s), "/", "~1") == EscapeChars(s)
  {
    if s != "" {
      SecondPass(s[1..]);
      var rest := EscapeTildes(s[1..]);
      ReplaceHead(s[0], rest);
      if s[0] == '~' {
        ReplaceHead('0', rest);
        ReplaceHead('~', "0" + rest);
        assert "~0" + rest == "~" + ("0" + rest);
        assert "~" + ("0" + EscapeChars(s[1..])) == "~0" + EscapeChars(s[1..]);
      }
    }
  }

  /** The two escaping passes replace each character independently. */
  lemma {:induction false} EscapeIsCharwise(s: string)
    ensures Escape(s) == EscapeChars(s)
  {
    FirstPass(s);
    SecondPass(s);
  }

  lemma {:induction false} UnescapeFirst(s: string)
    ensures ReplaceAll(EscapeChars(s), "~1", "/") == EscapeTildes(s)
  {
    if s != "" {
      UnescapeFirst(s[1..]);
      var rest := EscapeChars(s[1..]);
      if s[0] == '~' {
        SkipTwo("~0", rest);
      } else if s[0] == '/' {
        assert ("~1" + rest)[..2] == "~1" && ("~1" + rest)[2..] == rest;
      } else {
        SkipOne(s[0], rest, "~1", "/");
      }
    }
  }

  lemma {:induction false} SkipOne(c: char, rest: string, pat: string, repl: string)
    requires |pat| == 2 && pat[0] != c
    ensures ReplaceAll([c] + rest, pat, repl) == [c] + ReplaceAll(rest, pat, repl)
  {
    var s := [c] + rest;
    assert s[1..] == rest;
    if |s| >= 2 {
      assert s[..2][0] == c;
    } else {
      assert rest == "";
    }
  }

  lemma {:induction false} SkipTwo(two: string, rest: string)
    requires two == "~0"
    ensures ReplaceAll(two + rest, "~1", "/") == two + ReplaceAll(rest, "~1", "/")
  {
    var s := two + rest;
    assert s[..2] == two && s[1..] == "0" + rest;
    SkipOne('0', rest, "~1", "/");
    assert "~" + ("0" + ReplaceAll(rest, "~1", "/")) == two + ReplaceAll(rest, "~1", "/");
  }

  lemma {:induction false} UnescapeSecond(s: string)
    ensures ReplaceAll(EscapeTildes(s), "~0", "~") == s
  {
    if s != "" {
      UnescapeSecond(s[1..]);
      var rest := EscapeTildes(s[1..]);
      if s[0] == '~' {
        assert ("~0" + rest)[..2] == "~0" && ("~0" + rest)[2..] == rest;
      } else {
        SkipOne(s[0], rest, "~0", "~");
      }
    }
  }

  /** Unescaping undoes escaping for every token: the order of the passes matters. */
  lemma {:induction false} UnescapeEscape(s: string)
    ensures Unescape(Escape(s)) == s
  {
    EscapeIsCharwise(s);
    UnescapeFirst(s);
    UnescapeSecond(s);
  }

  // ---- Whole pointers ----

  ghost predicate NoSlash(s: string) {
    forall i :: 0 <= i < |s| ==> s[i] != '/'
  }

  lemma {:induction false} EscapedNoSlash(s: string)
    ensures NoSlash(EscapeChars(s))
  {
    if s != "" {
      EscapedNoSlash(s[1..]);
    }
  }

  lemma {:induction false} SplitToken(a: string, rest: string)
    requires NoSlash(a)
    ensures Split(a) == [a]
    ensures Split(a + "/" + rest) == [a] + Split(rest)
  {
    if a != "" {
      SplitToken(a[1..], rest);
      assert (a + "/" + rest)[1..] == a[1..] + "/" + rest;
      assert [a[0]] + a[1..] == a;
    } else {
      assert (a + "/" + rest)[1..] == rest;
    }
  }

  function EscapeAll(toks: seq<string>): (r: seq<string>)
    ensures |r| == |toks| && forall i :: 0 <= i < |r| ==> r[i] == Escape(toks[i])
  {
    if toks == [] then [] else [Escape(toks[0])] + EscapeAll(toks[1..])
  }

  lemma {:induction false} SplitHead(e: string, rest: string)
    requires NoSlash(e) && (rest == "" || rest[0] == '/')
    ensures Split(e + rest) == [e] + (if rest == "" then [] else Split(rest[1..]))
  {
    if rest == "" {
      assert e + rest == e;
      SplitToken(e, "");
    } else {
      assert e + rest == e + "/" + rest[1..];
      SplitToken(e, rest[1..]);
    }
  }

  lemma {:induction false} SplitFormat(toks: seq<string>)
    requires toks != []
    ensures Split(Format(toks)[1..]) == EscapeAll(toks)
  {
    var e, rest := Escape(toks[0]), Format(toks[1..]);
    EscapeIsCharwise(toks[0]);
    EscapedNoSlash(toks[0]);
    assert ("/" + e + rest)[1..] == e + rest;
    SplitHead(e, rest);
    if |toks| > 1 {
      SplitFormat(toks[1..]);
    }
  }

  /** Parsing a formatted pointer gives back every token list. */
  lemma {:induction false} ParseFormat(toks: seq<string>)
    ensures Parse(Format(toks)) == Tokens(toks)
  {
    if toks != [] {
      SplitFormat(toks);
      forall i | 0 <= i < |toks| ensures UnescapeAll(EscapeAll(toks))[i] == toks[i] {
        UnescapeEscape(toks[i]);
      }
      assert UnescapeAll(EscapeAll(toks)) == toks;
    }
  }

  /** Section 3 of RFC 6901: a reference token has every tilde followed by 0 or 1, and no slash. */
  ghost predicate ReferenceToken(s: string) {
    NoSlash(s) && forall i :: 0 <= i < |s| && s[i] == '~' ==> i + 1 < |s| && (s[i + 1] == '0' || s[i + 1] == '1')
  }

  /** Section 3 of RFC 6901: empty, or reference tokens each preceded by a slash. */
  ghost predicate InGrammar(ptr: string) {
    ptr == "" || (ptr[0] == '/' && forall i :: 0 <= i < |Split(ptr[1..])| ==> ReferenceToken(Split(ptr[1..])[i]))
  }

  lemma {:induction false} Decode(raw: string) returns (s: string)
    requires ReferenceToken(raw)
    ensures raw == EscapeChars(s)
    decreases |raw|
  {
    if raw == "" {
      s := "";
    } else if raw[0] == '~' {
      assert raw[1] == '0' || raw[1] == '1';
      var rest := Decode(raw[2..]);
      s := [if raw[1] == '0' then '~' else '/'] + rest;
      assert s[1..] == rest && raw == raw[..2] + raw[2..];
    } else {
      assert raw[0] != '/';
      var rest := Decode(raw[1..]);
      s := [raw[0]] + rest;
      assert s[1..] == rest;
    }
  }

  lemma {:induction false} ReferenceTokenRoundTrip(raw: string)
    requires ReferenceToken(raw)
    ensures Escape(Unescape(raw)) == raw
  {
    var s := Decode(raw);
    EscapeIsCharwise(s);
    UnescapeEscape(s);
  }

  function Join(raw: seq<string>): string {
    if raw == [] then "" else "/" + raw[0] + Join(raw[1..])
  }

  lemma {:induction false} JoinSplit(s: string)
    ensures Join(Split(s)) == "/" + s
  {
    if s != "" {
      JoinSplit(s[1..]);
      var rest := Split(s[1..]);
      if s[0] == '/' {
        assert Split(s)[1..] == rest;
      } else {
        assert Split(s)[1..] == rest[1..];
        Prefixed('/', rest[0], Join(rest[1..]), s);
      }
    }
  }

  lemma {:induction false} Prefixed<T>(slash: T, a: seq<T>, b: seq<T>, s: seq<T>)
    requires s != [] && [slash] + a + b == [slash] + s[1..]
    ensures [slash] + ([s[0]] + a) + b == [slash] + s
  {
    assert a + b == ([slash] + a + b)[1..];
    assert [slash] + ([s[0]] + a) + b == [slash] + ([s[0]] + (a + b));
  }

  lemma {:induction false} FormatJoin(raw: seq<string>)
    requires forall i :: 0 <= i < |raw| ==> ReferenceToken(raw[i])
    ensures Format(UnescapeAll(raw)) == Join(raw)
  {
    if raw != [] {
      FormatJoin(raw[1..]);
      ReferenceTokenRoundTrip(raw[0]);
      assert UnescapeAll(raw)[1..] == UnescapeAll(raw[1..]);
    }
  }

  /** Formatting a parsed pointer gives back every pointer of the grammar. */
  lemma {:induction false} FormatParse(ptr: string)
    requires InGrammar(ptr)
    ensures Parse(ptr).Tokens? && Format(Parse(ptr).toks) == ptr
  {
    if ptr != "" {
      FormatJoin(Split(ptr[1..]));
      JoinSplit(ptr[1..]);
    }
  }

  // ---- Extending a path without escaping ----

  /** A key that survives being pasted into a path as it is. */
  ghost predicate PlainKey(k: string) {
    NoSlash(k) && Unescape(k) == k
  }

  lemma {:induction false} HeadConcat<T>(x: T, a: seq<seq<T>>, b: seq<seq<T>>)
    requires a != []
    ensures [[x] + (a + b)[0]] + (a + b)[1..] == [[x] + a[0]] + a[1..] + b
  {
  }

  lemma {:induction false} SplitConcat(a: string, b: string)
    ensures Split(a + "/" + b) == Split(a) + Split(b)
  {
    var s := a + "/" + b;
    if a == "" {
      assert s[1..] == b;
    } else {
      assert s[1..] == a[1..] + "/" + b;
      SplitConcat(a[1..], b);
      HeadConcat(a[0], Split(a[1..]), Split(b));
    }
  }

  lemma {:induction false} ParseJoin(path: string, p: seq<string>, s: string)
    requires Parse(path) == Tokens(p)
    ensures Parse(path + "/" + s) == Tokens(p + UnescapeAll(Split(s)))
  {
    if path == "" {
      assert (path + "/" + s)[1..] == s;
      assert [] + UnescapeAll(Split(s)) == UnescapeAll(Split(s));
    } else {
      assert (path + "/" + s)[1..] == path[1..] + "/" + s;
      SplitConcat(path[1..], s);
      assert UnescapeAll(Split(path[1..]) + Split(s)) == UnescapeAll(Split(path[1..])) + UnescapeAll(Split(s));
    }
  }

  lemma {:induction false} ParseSnoc(path: string, toks: seq<string>, k: string)
    requires Parse(path) == Tokens(toks) && PlainKey(k)
    ensures Parse(path + "/" + k) == Tokens(toks + [k])
  {
    ParseJoin(path, toks, k);
    SplitToken(k, "");
    assert UnescapeAll([k]) == [k];
  }

  lemma {:induction false} NoTildeUnchanged(s: string, pat: string, repl: string)
    requires |pat| == 2 && pat[0] == '~' && forall i :: 0 <= i < |s| ==> s[i] != '~'
    ensures ReplaceAll(s, pat, repl) == s
  {
    if |s| >= 2 {
      assert s[..2][0] == s[0];
      NoTildeUnchanged(s[1..], pat, repl);
    }
  }

  /** Keys without slash and tilde are plain. */
  lemma {:induction false} PlainIfNoSpecials(k: string)
    requires forall i :: 0 <= i < |k| ==> k[i] != '/' && k[i] != '~'
    ensures PlainKey(k)
  {
    NoTildeUnchanged(k, "~1", "/");
    NoTildeUnchanged(k, "~0", "~");
  }
}
