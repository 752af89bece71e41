/**
 * The JavaScript and Node.js string primitives the handlers rely on:
 * String.prototype.trim, String.prototype.split(/\r?\n/),
 * String.prototype.toLowerCase (on ASCII) and path.extname (POSIX rules).
 */
module JsText {

  /** WhiteSpace and LineTerminator code points of ECMA-262: what `trim` strips. */
  predicate IsWhitespace(c: char) {
    || c == '\t' || c == '\n' || c == '\U{B}' || c == '\U{C}' || c == '\r'
    || c == ' ' || c == '\U{A0}' || c == '\U{1680}'
    || ('\U{2000}' <= c <= '\U{200A}')
    || c == '\U{2028}' || c == '\U{2029}' || c == '\U{202F}' || c == '\U{205F}'
    || c == '\U{3000}' || c == '\U{FEFF}'
  }

  predicate AllWhitespace(s: string) {
    forall i :: 0 <= i < |s| ==> IsWhitespace(s[i])
  }

  /** Neither the first nor the last character is whitespace. */
  predicate IsTrimmed(s: string) {
    s == [] || (!IsWhitespace(s[0]) && !IsWhitespace(s[|s| - 1]))
  }

  /** Drops the leading whitespace: the result is a suffix of `s`. */
  function TrimStart(s: string): (r: string)
    ensures |r| <= |s| && r == s[|s| - |r|..]
    ensures r == [] || !IsWhitespace(r[0])
  {
    if s != [] && IsWhitespace(s[0]) then TrimStart(s[1..]) else s
  }

  /** What TrimStart drops is whitespace. */
  lemma {:induction false} TrimStartDropsWhitespace(s: string)
    ensures AllWhitespace(s[..|s| - |TrimStart(s)|])
  {
    if s != [] && IsWhitespace(s[0]) {
      TrimStartDropsWhitespace(s[1..]);
      var n := |s| - |TrimStart(s)|;
      forall i | 0 <= i < n ensures IsWhitespace(s[..n][i]) {
        if i > 0 { assert s[..n][i] == s[1..][..n - 1][i - 1]; }
      }
    }
  }

  /** Drops the trailing whitespace: the result is a prefix of `s`. */
  function TrimEnd(s: string): (r: string)
    ensures |r| <= |s| && r == s[..|r|]
    ensures r == [] || !IsWhitespace(r[|r| - 1])
  {
    if s != [] && IsWhitespace(s[|s| - 1]) then TrimEnd(s[..|s| - 1]) else s
  }

  /** What TrimEnd drops is whitespace. */
  lemma {:induction false} TrimEndDropsWhitespace(s: string)
    ensures AllWhitespace(s[|TrimEnd(s)|..])
  {
    if s != [] && IsWhitespace(s[|s| - 1]) {
      var init := s[..|s| - 1];
      TrimEndDropsWhitespace(init);
      var m := |TrimEnd(s)|;
      forall i | m <= i < |s| ensures IsWhitespace(s[i]) {
        if i < |s| - 1 { assert s[i] == init[m..][i - m]; }
      }
    }
  }

  /** How many leading whitespace characters `trim` drops from `s`. */
  function Lead(s: string): nat {
    |s| - |TrimStart(s)|
  }

  /** JavaScript's `s.trim()`: the slice of `s` between its leading and trailing whitespace. */
  function Trim(s: string): (r: string)
    ensures IsTrimmed(r) && |r| <= |s|
  {
    TrimEnd(TrimStart(s))
  }

  /** Trim keeps a slice of `s` and drops only whitespace around it. */
  lemma TrimSlice(s: string)
    ensures Lead(s) + |Trim(s)| <= |s| && Trim(s) == s[Lead(s)..Lead(s) + |Trim(s)|]
    ensures AllWhitespace(s[..Lead(s)]) && AllWhitespace(s[Lead(s) + |Trim(s)|..])
  {
    var t := TrimStart(s);
    TrimStartDropsWhitespace(s);
    TrimEndDropsWhitespace(t);
    assert t[|Trim(s)|..] == s[Lead(s) + |Trim(s)|..];
  }

  /** A string trims to nothing exactly when it is all whitespace. */
  lemma TrimEmptyIff(s: string)
    ensures Trim(s) == [] <==> AllWhitespace(s)
  {
    TrimSlice(s);
    if Trim(s) == [] {
      assert s == s[..Lead(s)] + s[Lead(s)..];
    }
  }

  /** Trimming twice is trimming once. */
  lemma TrimIdempotent(s: string)
    ensures Trim(Trim(s)) == Trim(s)
  {
    var r := Trim(s);
    assert TrimStart(r) == r;
    assert TrimEnd(r) == r;
  }

  /** A trailing carriage return is invisible after trimming. */
  lemma TrimIgnoresTrailingCR(s: string)
    ensures Trim(s + "\r") == Trim(s)
  {
    var c := s + "\r";
    if AllWhitespace(s) {
      forall i | 0 <= i < |c| ensures IsWhitespace(c[i]) {
        if i < |s| { assert c[i] == s[i]; }
      }
      TrimEmptyIff(s);
      TrimEmptyIff(c);
    } else {
      var k :| 0 <= k < |s| && !IsWhitespace(s[k]);
      TrimStartAppend(s, "\r", k);
      var t := TrimStart(s);
      var tc := t + "\r";
      assert tc[..|t|] == t;
      assert tc != [] && IsWhitespace(tc[|tc| - 1]);
      assert TrimEnd(tc) == TrimEnd(t);
    }
  }

  /** Leading whitespace is decided within `s` once `s` holds a non-whitespace character. */
  lemma {:induction false} TrimStartAppend(s: string, tail: string, k: nat)
    requires k < |s| && !IsWhitespace(s[k])
    ensures TrimStart(s + tail) == TrimStart(s) + tail
    decreases |s|
  {
    if IsWhitespace(s[0]) {
      assert (s + tail)[1..] == s[1..] + tail;
      TrimStartAppend(s[1..], tail, k - 1);
    }
  }

  /** The pieces of `s.split(/\r?\n/)`: a line break is "\n" or "\r\n", matched left to right. */
  function Lines(s: string): (ls: seq<string>)
    ensures |ls| >= 1
    decreases |s|
  {
    if s == [] then [""]
    else if s[0] == '\n' then [""] + Lines(s[1..])
    else if s[0] == '\r' && |s| > 1 && s[1] == '\n' then [""] + Lines(s[2..])
    else
      var rest := Lines(s[1..]);
      [[s[0]] + rest[0]] + rest[1..]
  }

  /** Text with no line feed is a single line, a carriage return in it included. */
  lemma {:induction false} LinesWithoutBreak(x: string)
    requires '\n' !in x
    ensures Lines(x) == [x]
    decreases |x|
  {
    if x != [] {
      assert '\n' !in x[1..];
      LinesWithoutBreak(x[1..]);
      assert x == [x[0]] + x[1..];
    }
  }

  /** A "\r\n" break ends the line before it, and the "\r" is not part of that line. */
  lemma {:induction false} LinesAtCRLF(x: string, y: string)
    requires '\n' !in x
    ensures Lines(x + "\r\n" + y) == [x] + Lines(y)
    decreases |x|
  {
    var s := x + "\r\n" + y;
    if x == [] {
      assert s == "\r\n" + y && s[2..] == y;
    } else {
      assert s[1..] == x[1..] + "\r\n" + y;
      assert '\n' !in x[1..];
      assert s[1] != '\n' by {
        if |x| > 1 { assert s[1] == x[1]; } else { assert s[1] == '\r'; }
      }
      LinesAtCRLF(x[1..], y);
      assert x == [x[0]] + x[1..];
    }
  }

  /** A bare "\n" break ends the line before it, when that line does not end in "\r". */
  lemma {:induction false} LinesAtLF(x: string, y: string)
    requires '\n' !in x && (x == [] || x[|x| - 1] != '\r')
    ensures Lines(x + "\n" + y) == [x] + Lines(y)
    decreases |x|
  {
    var s := x + "\n" + y;
    if x == [] {
      assert s == "\n" + y && s[1..] == y;
    } else {
      assert s[1..] == x[1..] + "\n" + y;
      assert '\n' !in x[1..];
      assert x[0] == '\r' ==> s[1] != '\n' by {
        if |x| > 1 { assert s[1] == x[1]; } else { assert x[0] == x[|x| - 1]; }
      }
      assert x[1..] == [] || x[1..][|x[1..]| - 1] == x[|x| - 1];
      LinesAtLF(x[1..], y);
      assert x == [x[0]] + x[1..];
    }
  }

  /** No line holds a line feed. */
  lemma {:induction false} LinesHaveNoLineFeed(s: string)
    ensures forall i :: 0 <= i < |Lines(s)| ==> '\n' !in Lines(s)[i]
    decreases |s|
  {
    if s == [] {
    } else if s[0] == '\n' {
      LinesHaveNoLineFeed(s[1..]);
    } else if s[0] == '\r' && |s| > 1 && s[1] == '\n' {
      LinesHaveNoLineFeed(s[2..]);
    } else {
      LinesHaveNoLineFeed(s[1..]);
      var rest := Lines(s[1..]);
      assert '\n' !in [s[0]] + rest[0];
    }
  }

  /** The pieces joined back with `sep` between them. */
  function Join(parts: seq<string>, sep: string): string {
    if parts == [] then ""
    else if |parts| == 1 then parts[0]
    else parts[0] + sep + Join(parts[1..], sep)
  }

  /** Joining a first piece onto at least one more puts `sep` between them. */
  lemma JoinCons(first: string, parts: seq<string>, sep: string)
    requires parts != []
    ensures Join([first] + parts, sep) == first + sep + Join(parts, sep)
  {
    assert ([first] + parts)[1..] == parts;
  }

  /** A character put in front of the first piece comes first in the joined text. */
  lemma JoinPrepend(c: char, parts: seq<string>, sep: string)
    requires parts != []
    ensures Join([[c] + parts[0]] + parts[1..], sep) == [c] + Join(parts, sep)
  {
    if |parts| > 1 {
      JoinCons([c] + parts[0], parts[1..], sep);
      JoinCons(parts[0], parts[1..], sep);
      assert parts == [parts[0]] + parts[1..];
    } else {
      assert [[c] + parts[0]] + parts[1..] == [[c] + parts[0]];
    }
  }

  /** Without carriage returns, splitting into lines and joining with "\n" is the identity. */
  lemma {:induction false} JoinLines(s: string)
    requires '\r' !in s
    ensures Join(Lines(s), "\n") == s
    decreases |s|
  {
    if s != [] {
      assert '\r' !in s[1..] by {
        forall i | 0 <= i < |s[1..]| ensures s[1..][i] != '\r' {
          assert s[1..][i] == s[i + 1];
        }
      }
      JoinLines(s[1..]);
      var rest := Lines(s[1..]);
      assert s == [s[0]] + s[1..];
      if s[0] == '\n' {
        assert Lines(s) == [""] + rest;
        JoinCons("", rest, "\n");
      } else {
        assert Lines(s) == [[s[0]] + rest[0]] + rest[1..];
        JoinPrepend(s[0], rest, "\n");
      }
    }
  }

  /** ASCII lower-casing of one character; every other character is left as it is. */
  function LowerChar(c: char): (l: char)
    ensures 'A' <= c <= 'Z' ==> l as int == c as int + 32
    ensures !('A' <= c <= 'Z') ==> l == c
  {
    if 'A' <= c <= 'Z' then (c as int + 32) as char else c
  }

  /** `s.toLowerCase()` restricted to ASCII letters. */
  function ToLower(s: string): (r: string)
    ensures |r| == |s|
  {
    if s == [] then [] else [LowerChar(s[0])] + ToLower(s[1..])
  }

  /** Lower-casing works character by character. */
  lemma {:induction false} ToLowerAt(s: string, i: nat)
    requires i < |s|
    ensures ToLower(s)[i] == LowerChar(s[i])
  {
    if i > 0 { ToLowerAt(s[1..], i - 1); }
  }

  /** The last index of `c` in `s`, or -1 when `c` does not occur. */
  function LastIndexOf(s: string, c: char): (k: int)
    ensures -1 <= k < |s|
    ensures 0 <= k ==> s[k] == c
  {
    if s == [] then -1
    else if s[|s| - 1] == c then |s| - 1
    else LastIndexOf(s[..|s| - 1], c)
  }

  /** -1 exactly when `c` is absent; otherwise no `c` follows the index. */
  lemma {:induction false} LastIndexOfIsLast(s: string, c: char)
    ensures LastIndexOf(s, c) == -1 <==> c !in s
    ensures 0 <= LastIndexOf(s, c) ==> c !in s[LastIndexOf(s, c) + 1..]
  {
    if s != [] && s[|s| - 1] != c {
      var init := s[..|s| - 1];
      LastIndexOfIsLast(init, c);
      var k := LastIndexOf(init, c);
      assert s == init + [s[|s| - 1]];
      assert 0 <= k ==> s[k + 1..] == init[k + 1..] + [s[|s| - 1]];
    }
  }

  /** `s` without its trailing run of '/'. */
  function StripTrailingSlashes(s: string): (r: string)
    ensures |r| <= |s| && r == s[..|r|]
    ensures r == [] || r[|r| - 1] != '/'
  {
    if s != [] && s[|s| - 1] == '/' then StripTrailingSlashes(s[..|s| - 1]) else s
  }

  /** The last path component, as Node's `path.basename` sees it. */
  function BaseName(path: string): string {
    var p := StripTrailingSlashes(path);
    p[LastIndexOf(p, '/') + 1..]
  }

  /**
   * Node's POSIX `path.extname`: from the last '.' of the last path component to its end,
   * or "" when that component has no '.', has its last '.' first, or is "..".
   */
  function ExtName(path: string): (e: string)
    ensures e == [] || e[0] == '.'
  {
    var b := BaseName(path);
    var d := LastIndexOf(b, '.');
    if d <= 0 || b == ".." then "" else b[d..]
  }

  /** An extension is a '.' followed by characters that are neither '.' nor '/'. */
  lemma ExtNameShape(path: string)
    ensures ExtName(path) == [] || ('.' !in ExtName(path)[1..] && '/' !in ExtName(path))
  {
    var p := StripTrailingSlashes(path);
    LastIndexOfIsLast(p, '/');
    var b := BaseName(path);
    LastIndexOfIsLast(b, '.');
    var d := LastIndexOf(b, '.');
    if d > 0 {
      assert b[d..][1..] == b[d + 1..];
    }
  }

  /** No occurrence of `c` lies after the index found. */
  lemma {:induction false} LastIndexOfAtLeast(s: string, c: char, j: int)
    requires 0 <= j < |s| && s[j] == c
    ensures j <= LastIndexOf(s, c)
  {
    if s[|s| - 1] != c {
      var init := s[..|s| - 1];
      assert init[j] == c;
      LastIndexOfAtLeast(init, c, j);
    }
  }

  /** A name with no '/' is its own last component. */
  lemma BaseNameOfPlainName(name: string)
    requires name != [] && '/' !in name
    ensures BaseName(name) == name
  {
    assert name[|name| - 1] != '/';
    assert StripTrailingSlashes(name) == name;
    LastIndexOfIsLast(name, '/');
  }

  /** A name whose last component is `stem + ext` has extension `ext`. */
  lemma ExtNameOfFileName(stem: string, ext: string)
    requires stem != [] && '/' !in stem
    requires |ext| >= 1 && ext[0] == '.' && '.' !in ext[1..] && '/' !in ext
    requires stem + ext != ".."
    ensures ExtName(stem + ext) == ext
  {
    var p := stem + ext;
    assert '/' !in p by {
      forall i | 0 <= i < |p| ensures p[i] != '/' {
        if i < |stem| { assert p[i] == stem[i]; } else { assert p[i] == ext[i - |stem|]; }
      }
    }
    BaseNameOfPlainName(p);
    assert p[|stem|] == '.';
    LastIndexOfAtLeast(p, '.', |stem|);
    forall i | |stem| < i < |p| ensures p[i] != '.' {
      assert p[i] == ext[1..][i - |stem| - 1];
    }
    var d := LastIndexOf(p, '.');
    assert p[d] == '.';
    assert d == |stem|;
    assert p[d..] == ext;
  }

  /** Text with no whitespace at either end trims to itself. */
  lemma TrimKeepsTrimmed(w: string)
    requires IsTrimmed(w)
    ensures Trim(w) == w
  {
  }
}
