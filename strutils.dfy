/** The string helpers of the utility namespace: case folding, suffix and
    substring tests, getline-based splitting, trimming, tab expansion and
    the two path helpers. A std::string is a seq<char>, one char per byte. */
module StrUtils {

  // ---------------------------------------------------------------------
  // toLower

  /** ::tolower in the "C" locale: only A-Z change. */
  function LowerChar(c: char): char {
    if 'A' <= c <= 'Z' then (c as int - 'A' as int + 'a' as int) as char else c
  }

  function ToLower(s: string): (r: string)
    ensures |r| == |s|
    ensures forall i :: 0 <= i < |s| && !('A' <= s[i] <= 'Z') ==> r[i] == s[i]
    ensures forall i :: 0 <= i < |s| && 'A' <= s[i] <= 'Z' ==> 'a' <= r[i] <= 'z' && r[i] as int - s[i] as int == 32
  {
    seq(|s|, i requires 0 <= i < |s| => LowerChar(s[i]))
  }

  /** Lower-casing twice is lower-casing once. */
  lemma ToLowerIdempotent(s: string)
    ensures ToLower(ToLower(s)) == ToLower(s)
  {
  }

  // ---------------------------------------------------------------------
  // endsWith and strcontains

  function EndsWith(full: string, ending: string): (r: bool)
    ensures r <==> exists p :: full == p + ending
    ensures |ending| > |full| ==> !r
  {
    if |full| >= |ending| then
      var cut := |full| - |ending|;
      assert full == full[..cut] + full[cut..];
      full[cut..] == ending
    else false
  }

  predicate OccursAt(src: string, what: string, i: nat) {
    i + |what| <= |src| && src[i..i + |what|] == what
  }

  /** The first position from i where what occurs (string::find), if any. */
  function FindFrom(src: string, what: string, i: nat): (r: int)
    ensures r >= 0 ==> i <= r && OccursAt(src, what, r)
    ensures r >= 0 ==> forall k :: i <= k < r ==> !OccursAt(src, what, k)
    ensures r < 0 ==> r == -1 && forall k :: i <= k ==> !OccursAt(src, what, k)
    decreases |src| - i
  {
    if i + |what| > |src| then -1
    else if src[i..i + |what|] == what then i
    else FindFrom(src, what, i + 1)
  }

  /** strcontains(src, what): find does not answer npos. */
  function StrContains(src: string, what: string): (r: bool)
    ensures r <==> exists i :: OccursAt(src, what, i)
    ensures what == [] ==> r
  {
    assert what == [] ==> OccursAt(src, what, 0);
    FindFrom(src, what, 0) >= 0
  }

  /** The vector overload: a loop that stops at the first element found. */
  method StrContainsAny(src: string, what: seq<string>) returns (r: bool)
    ensures r <==> exists k :: 0 <= k < |what| && StrContains(src, what[k])
    ensures what == [] ==> !r
  {
    var k := 0;
    while k < |what|
      invariant 0 <= k <= |what|
      invariant forall m :: 0 <= m < k ==> !StrContains(src, what[m])
    {
      if StrContains(src, what[k]) {
        return true;
      }
      k := k + 1;
    }
    return false;
  }

  // ---------------------------------------------------------------------
  // split (getline with a delimiter)

  /** Index of the first d in s, or |s|. */
  function IndexOf(s: string, d: char): (r: nat)
    ensures r <= |s|
    ensures r < |s| ==> s[r] == d
    ensures forall k :: 0 <= k < r ==> s[k] != d
  {
    if s == [] then 0
    else if s[0] == d then 0
    else 1 + IndexOf(s[1..], d)
  }

  /** The tokens getline extracts: one per delimiter-terminated piece, plus
      the unterminated tail when it is not empty. */
  function Split(s: string, d: char): seq<string>
    decreases |s|
  {
    if s == [] then []
    else
      var i := IndexOf(s, d);
      if i < |s| then [s[..i]] + Split(s[i + 1..], d) else [s]
  }

  lemma SplitAtFirst(tok: string, r: string, d: char)
    requires d !in tok
    requires r != [] && r[0] == d
    ensures Split(tok + r, d) == [tok] + Split(r[1..], d)
  {
    var s := tok + r;
    assert s[|tok|] == d;
    assert forall k :: 0 <= k < |tok| ==> s[k] != d;
    assert IndexOf(s, d) == |tok|;
    assert s[..|tok|] == tok;
    assert s[|tok| + 1..] == r[1..];
  }

  /** At a delimiter the pending token is complete and scanning restarts. */
  lemma SplitAtDelimiter(s: string, i: nat, tok: string, d: char)
    requires i < |s| && s[i] == d && d !in tok
    ensures Split(tok + s[i..], d) == [tok] + Split("" + s[i + 1..], d)
  {
    SplitAtFirst(tok, s[i..], d);
    assert s[i..][1..] == s[i + 1..];
    assert "" + s[i + 1..] == s[i + 1..];
  }

  lemma ConsumeChar(s: string, i: nat, tok: string)
    requires i < |s|
    ensures tok + s[i..] == (tok + [s[i]]) + s[i + 1..]
  {
    assert s[i..] == [s[i]] + s[i + 1..];
  }

  lemma SplitNoDelimiter(tok: string, d: char)
    requires d !in tok
    ensures Split(tok, d) == if tok == [] then [] else [tok]
  {
    assert forall k :: 0 <= k < |tok| ==> tok[k] != d;
  }

  /** One character of the split loop: a delimiter completes the pending
      token, any other character extends it. */
  lemma SplitStep(s: string, i: nat, tok: string, d: char, tokens: seq<string>)
    requires i < |s| && d !in tok
    ensures s[i] == d ==> tokens + Split(tok + s[i..], d) == (tokens + [tok]) + Split("" + s[i + 1..], d)
    ensures s[i] != d ==> tokens + Split(tok + s[i..], d) == tokens + Split((tok + [s[i]]) + s[i + 1..], d)
  {
    if s[i] == d {
      SplitAtDelimiter(s, i, tok, d);
    } else {
      ConsumeChar(s, i, tok);
    }
  }

  /** split: reads characters into tok and pushes it at every delimiter
      and, when not empty, at the end. */
  method SplitTokens(s: string, d: char) returns (tokens: seq<string>)
    ensures tokens == Split(s, d)
  {
    tokens := [];
    var tok := "";
    var i := 0;
    assert tok + s[i..] == s;
    while i < |s|
      invariant 0 <= i <= |s|
      invariant d !in tok
      invariant Split(s, d) == tokens + Split(tok + s[i..], d)
    {
      SplitStep(s, i, tok, d, tokens);
      if s[i] == d {
        tokens := tokens + [tok];
        tok := "";
      } else {
        tok := tok + [s[i]];
      }
      i := i + 1;
    }
    SplitNoDelimiter(tok, d);
    assert tok + s[i..] == tok;
    if tok != "" {
      tokens := tokens + [tok];
    }
  }

  function Join(tokens: seq<string>, d: char): string
    decreases |tokens|
  {
    if tokens == [] then ""
    else if |tokens| == 1 then tokens[0]
    else tokens[0] + [d] + Join(tokens[1..], d)
  }

  /** No token holds the delimiter, and "" is the only input without tokens. */
  lemma {:induction false} SplitTokensClean(s: string, d: char)
    ensures forall k :: 0 <= k < |Split(s, d)| ==> d !in Split(s, d)[k]
    ensures s == [] <==> Split(s, d) == []
    decreases |s|
  {
    if s != [] {
      var i := IndexOf(s, d);
      if i < |s| {
        SplitTokensClean(s[i + 1..], d);
        assert forall k :: 0 <= k < i ==> s[..i][k] != d;
      } else {
        assert forall k :: 0 <= k < |s| ==> s[k] != d;
      }
    }
  }

  /** Joining the tokens with the delimiter gives back the input, except
      that one trailing delimiter adds no empty token and is not restored. */
  lemma {:induction false} SplitJoin(s: string, d: char)
    ensures s != [] && s[|s| - 1] == d ==> Join(Split(s, d), d) + [d] == s
    ensures s != [] && s[|s| - 1] != d ==> Join(Split(s, d), d) == s
    decreases |s|
  {
    if s != [] {
      var i := IndexOf(s, d);
      if i < |s| {
        var rest := s[i + 1..];
        assert s == s[..i] + [d] + rest;
        if rest == [] {
          assert Split(s, d) == [s[..i]];
        } else {
          SplitJoin(rest, d);
          SplitTokensClean(rest, d);
          assert rest[|rest| - 1] == s[|s| - 1];
          var toks := Split(s, d);
          assert toks == [s[..i]] + Split(rest, d);
          assert |toks| > 1 && toks[1..] == Split(rest, d);
          assert Join(toks, d) == s[..i] + [d] + Join(Split(rest, d), d);
        }
      }
    }
  }

  // ---------------------------------------------------------------------
  // trim family (the character set is " \t\n\r\f\v" by default)

  const Whitespace: seq<char> := [' ', '\t', '\n', '\r', 12 as char, 11 as char]

  /** find_first_not_of(t), with |s| standing for npos. */
  function FirstNotOf(s: string, t: seq<char>): (r: nat)
    ensures r <= |s|
    ensures forall k :: 0 <= k < r ==> s[k] in t
    ensures r < |s| ==> s[r] !in t
  {
    if s == [] || s[0] !in t then 0 else 1 + FirstNotOf(s[1..], t)
  }

  /** find_last_not_of(t) + 1, which is 0 when npos. */
  function EndOfLastNotOf(s: string, t: seq<char>): (r: nat)
    ensures r <= |s|
    ensures forall k :: r <= k < |s| ==> s[k] in t
    ensures r > 0 ==> s[r - 1] !in t
    decreases |s|
  {
    if s == [] || s[|s| - 1] !in t then |s| else EndOfLastNotOf(s[..|s| - 1], t)
  }

  /** ltrim: erases the maximal prefix of characters from t. */
  function LTrim(s: string, t: seq<char>): (r: string)
    ensures exists p :: s == p + r && forall k :: 0 <= k < |p| ==> p[k] in t
    ensures r == [] || r[0] !in t
  {
    var n := FirstNotOf(s, t);
    assert s == s[..n] + s[n..];
    s[n..]
  }

  /** rtrim: erases the maximal suffix of characters from t. */
  function RTrim(s: string, t: seq<char>): (r: string)
    ensures exists q :: s == r + q && forall k :: 0 <= k < |q| ==> q[k] in t
    ensures r == [] || r[|r| - 1] !in t
  {
    var n := EndOfLastNotOf(s, t);
    assert s == s[..n] + s[n..];
    s[..n]
  }

  function Trim(s: string, t: seq<char>): string {
    LTrim(RTrim(s, t), t)
  }

  /** trim returns a contiguous piece of its input that neither begins nor
      ends with a character of t, and a string made only of such characters
      becomes empty. */
  lemma TrimShape(s: string, t: seq<char>)
    ensures exists i, j :: 0 <= i <= j <= |s| && Trim(s, t) == s[i..j]
    ensures Trim(s, t) == [] || (Trim(s, t)[0] !in t && Trim(s, t)[|Trim(s, t)| - 1] !in t)
    ensures (forall k :: 0 <= k < |s| ==> s[k] in t) ==> Trim(s, t) == []
  {
    var n := EndOfLastNotOf(s, t);
    var m := TrimSlice(s, t);
    var tr := Trim(s, t);
    if tr != [] {
      assert tr[|tr| - 1] == s[n - 1];
    }
    if n > 0 {
      // a character outside t remains, so s is not made only of t
      assert s[n - 1] !in t;
    }
  }

  /** The trimmed string is s[m..n], n being where rtrim cuts. */
  lemma TrimSlice(s: string, t: seq<char>) returns (m: nat)
    ensures m <= EndOfLastNotOf(s, t)
    ensures Trim(s, t) == s[m..EndOfLastNotOf(s, t)]
  {
    var n := EndOfLastNotOf(s, t);
    var r := RTrim(s, t);
    assert r == s[..n];
    m := FirstNotOf(r, t);
    assert LTrim(r, t) == r[m..];
    assert r[m..] == s[m..n];
  }

  /** Each trim is idempotent. */
  lemma TrimIdempotent(s: string, t: seq<char>)
    ensures LTrim(LTrim(s, t), t) == LTrim(s, t)
    ensures RTrim(RTrim(s, t), t) == RTrim(s, t)
    ensures Trim(Trim(s, t), t) == Trim(s, t)
  {
    var l := LTrim(s, t);
    assert FirstNotOf(l, t) == 0;
    var r := RTrim(s, t);
    assert EndOfLastNotOf(r, t) == |r|;
    var tr := Trim(s, t);
    TrimShape(s, t);
    assert EndOfLastNotOf(tr, t) == |tr|;
    assert RTrim(tr, t) == tr;
    assert FirstNotOf(tr, t) == 0;
  }

  // ---------------------------------------------------------------------
  // replace_tabs_with_spaces

  function Spaces(n: nat): (r: string)
    ensures |r| == n && forall k :: 0 <= k < n ==> r[k] == ' '
  {
    if n == 0 then "" else Spaces(n - 1) + " "
  }

  function TabCount(s: string): nat {
    if s == [] then 0 else TabCount(s[..|s| - 1]) + (if s[|s| - 1] == '\t' then 1 else 0)
  }

  /** Every tab replaced by n spaces, everything else copied. */
  function ExpandTabs(s: string, n: nat): string {
    if s == [] then ""
    else ExpandTabs(s[..|s| - 1], n) + (if s[|s| - 1] == '\t' then Spaces(n) else [s[|s| - 1]])
  }

  method ReplaceTabsWithSpaces(input: string, n: nat) returns (out: string)
    ensures out == ExpandTabs(input, n)
  {
    var spaces := Spaces(n);
    out := "";
    var i := 0;
    while i < |input|
      invariant 0 <= i <= |input|
      invariant out == ExpandTabs(input[..i], n)
    {
      assert input[..i + 1][..i] == input[..i];
      if input[i] == '\t' {
        out := out + spaces;
      } else {
        out := out + [input[i]];
      }
      i := i + 1;
    }
    assert input[..i] == input;
  }

  /** The expansion holds no tab. */
  lemma {:induction false} ExpandTabsHasNoTab(s: string, n: nat)
    ensures '\t' !in ExpandTabs(s, n)
    decreases |s|
  {
    if s != [] {
      ExpandTabsHasNoTab(s[..|s| - 1], n);
    }
  }

  /** Each tab turns into n characters, so the length grows by n - 1 per tab. */
  lemma {:induction false} ExpandTabsLength(s: string, n: nat)
    ensures |ExpandTabs(s, n)| == |s| + TabCount(s) * (n - 1)
    decreases |s|
  {
    if s != [] {
      var init := s[..|s| - 1];
      ExpandTabsLength(init, n);
      var t := TabCount(init);
      assert (t + 1) * (n - 1) == t * (n - 1) + (n - 1);
    }
  }

  /** A string without tabs comes back unchanged. */
  lemma {:induction false} ExpandTabsIdentity(s: string, n: nat)
    requires TabCount(s) == 0
    ensures ExpandTabs(s, n) == s
    decreases |s|
  {
    if s != [] {
      var init := s[..|s| - 1];
      assert TabCount(init) == 0;
      ExpandTabsIdentity(init, n);
      assert s == init + [s[|s| - 1]];
    }
  }

  // ---------------------------------------------------------------------
  // Path helpers (cpp/strutils.h)

  predicate IsSeparator(c: char) {
    c == '/' || c == '\\'
  }

  /** Index just after the last separator, or 0 when there is none. */
  function AfterLastSeparator(s: string): (r: nat)
    ensures r <= |s|
    ensures r > 0 ==> IsSeparator(s[r - 1])
    ensures forall k :: r <= k < |s| ==> !IsSeparator(s[k])
    decreases |s|
  {
    if s == [] || IsSeparator(s[|s| - 1]) then |s| else AfterLastSeparator(s[..|s| - 1])
  }

  /** baseFileName: the part after the last '/' or '\\'. */
  function BaseFileName(path: string): (r: string)
    ensures exists p :: path == p + r && (p == [] || IsSeparator(p[|p| - 1]))
    ensures forall k :: 0 <= k < |r| ==> !IsSeparator(r[k])
    ensures (forall k :: 0 <= k < |path| ==> !IsSeparator(path[k])) ==> r == path
  {
    var n := AfterLastSeparator(path);
    assert path == path[..n] + path[n..];
    path[n..]
  }

  /** Index of the last '.', if any. */
  function LastDot(s: string): (r: int)
    ensures -1 <= r < |s|
    ensures r >= 0 ==> s[r] == '.'
    ensures forall k :: r < k < |s| ==> s[k] != '.'
    decreases |s|
  {
    if s == [] then -1 else if s[|s| - 1] == '.' then |s| - 1 else LastDot(s[..|s| - 1])
  }

  /** removeExtension: the prefix before the last '.', wherever it is. */
  function RemoveExtension(fileName: string): (r: string)
    ensures exists q :: fileName == r + q && (q == [] || q[0] == '.')
    ensures '.' in fileName <==> |r| < |fileName|
    ensures |r| < |fileName| ==> '.' !in fileName[|r| + 1..]
  {
    var i := LastDot(fileName);
    if i < 0 then
      assert fileName == fileName + [];
      fileName
    else
      assert fileName == fileName[..i] + fileName[i..];
      fileName[..i]
  }

  /** The dot may sit in a directory name: the whole tail after it goes. */
  lemma DotInDirectory()
    ensures RemoveExtension("a.d/file") == "a"
  {
    var s := "a.d/file";
    var r := RemoveExtension(s);
    assert s[1] == '.';
    assert forall k :: 0 <= k < |s| && k != 1 ==> s[k] != '.';
    var q :| s == r + q && (q == [] || q[0] == '.');
    assert |r| < |s| && s[|r|] == q[0];
    assert r == s[..1];
  }
}
