/** The string operations certbot/hooks.py leans on, as Python defines them:
 *  `str.split(None, 1)[0]`, `os.path.basename`, `os.path.join` (the POSIX
 *  versions) and `" ".join`. */
module Text {
  import opened Wrappers

  /** Python's `str.isspace()`: the separators that `str.split()` with no
   *  argument splits on. */
  predicate IsSpace(c: char) {
    c == ' ' || ('\t' <= c <= '\r') || ('\U{1c}' <= c <= '\U{1f}')
    || c == '\U{85}' || c == '\U{a0}' || c == '\U{1680}'
    || ('\U{2000}' <= c <= '\U{200a}') || c == '\U{2028}' || c == '\U{2029}'
    || c == '\U{202f}' || c == '\U{205f}' || c == '\U{3000}'
  }

  predicate AllSpace(s: string) {
    forall i :: 0 <= i < |s| ==> IsSpace(s[i])
  }

  predicate NoSpace(s: string) {
    forall i :: 0 <= i < |s| ==> !IsSpace(s[i])
  }

  /** s without its leading whitespace. */
  function LStrip(s: string): string {
    if s == [] || !IsSpace(s[0]) then s else LStrip(s[1..])
  }

  /** LStrip removes a prefix of whitespace, and all of it. */
  lemma {:induction false} LStripSpec(s: string)
    ensures var r := LStrip(s);
      |r| <= |s| && r == s[|s| - |r|..] && AllSpace(s[..|s| - |r|])
      && (r == [] || !IsSpace(r[0]))
  {
    if s != [] && IsSpace(s[0]) {
      LStripSpec(s[1..]);
      var r := LStrip(s[1..]);
      assert s[..|s| - |r|] == [s[0]] + s[1..][..|s| - 1 - |r|];
    }
  }

  /** The longest prefix of s without whitespace. */
  function TakeToken(s: string): string {
    if s == [] || IsSpace(s[0]) then [] else [s[0]] + TakeToken(s[1..])
  }

  /** TakeToken keeps a prefix without whitespace that ends at the end of s
   *  or before a whitespace character. */
  lemma {:induction false} TakeTokenSpec(s: string)
    ensures var r := TakeToken(s);
      |r| <= |s| && r == s[..|r|] && NoSpace(r) && (|r| == |s| || IsSpace(s[|r|]))
  {
    if s != [] && !IsSpace(s[0]) {
      TakeTokenSpec(s[1..]);
      var t := TakeToken(s[1..]);
      assert [s[0]] + t == s[..|t| + 1];
      assert forall i :: 1 <= i < |t| + 1 ==> ([s[0]] + t)[i] == t[i - 1];
    }
  }

  /** `s.split(None, 1)[0]`: the first whitespace-delimited field of s. None
   *  where s holds nothing but whitespace, so that `split` returns an empty
   *  list and the indexing raises IndexError. */
  function FirstToken(s: string): Option<string> {
    var t := LStrip(s);
    if t == [] then None else Some(TakeToken(t))
  }

  /** There is no first field exactly when s is all whitespace; a first field
   *  is never empty and holds no whitespace. */
  lemma FirstTokenSpec(s: string)
    ensures FirstToken(s).None? <==> AllSpace(s)
    ensures FirstToken(s).Some? ==> FirstToken(s).value != [] && NoSpace(FirstToken(s).value)
  {
    var t := LStrip(s);
    LStripSpec(s);
    if t == [] {
      assert s[..|s|] == s;
    } else {
      assert !AllSpace(s) by { assert s[|s| - |t|] == t[0]; }
      TakeTokenSpec(t);
    }
  }

  lemma {:induction false} LStripAfterSpace(lead: string, s: string)
    requires AllSpace(lead)
    requires s == [] || !IsSpace(s[0])
    ensures LStrip(lead + s) == s
    decreases |lead|
  {
    if lead == [] {
      assert lead + s == s;
    } else {
      assert (lead + s)[1..] == lead[1..] + s;
      LStripAfterSpace(lead[1..], s);
    }
  }

  lemma {:induction false} TakeTokenBeforeSpace(token: string, rest: string)
    requires NoSpace(token)
    requires rest == [] || IsSpace(rest[0])
    ensures TakeToken(token + rest) == token
    decreases |token|
  {
    if token == [] {
      assert token + rest == rest;
    } else {
      assert (token + rest)[1..] == token[1..] + rest;
      TakeTokenBeforeSpace(token[1..], rest);
      assert [token[0]] + token[1..] == token;
    }
  }

  /** The first field is found behind any leading whitespace and ends at the
   *  first whitespace after it; what follows (the arguments) is ignored. */
  lemma FirstTokenOf(lead: string, token: string, rest: string)
    requires AllSpace(lead) && token != [] && NoSpace(token)
    requires rest == [] || IsSpace(rest[0])
    ensures FirstToken(lead + token + rest) == Some(token)
  {
    assert lead + token + rest == lead + (token + rest);
    LStripAfterSpace(lead, token + rest);
    TakeTokenBeforeSpace(token, rest);
  }

  /** `posixpath.basename(p)`: everything after the last '/'. */
  function Basename(p: string): (r: string)
    ensures |r| <= |p| && r == p[|p| - |r|..]
    ensures '/' !in r
    ensures |r| < |p| ==> p[|p| - |r| - 1] == '/'
  {
    if p == [] || p[|p| - 1] == '/' then []
    else
      var r := Basename(p[..|p| - 1]);
      assert p[|p| - |r| - 1..] == r + [p[|p| - 1]];
      r + [p[|p| - 1]]
  }

  /** The basename is empty exactly when the path is empty or ends in '/'. */
  lemma BasenameEmpty(p: string)
    ensures Basename(p) == [] <==> (p == [] || p[|p| - 1] == '/')
  {
  }

  /** `posixpath.join(a, b)` for two components. */
  function PathJoin(a: string, b: string): string {
    if b != [] && b[0] == '/' then b
    else if a == [] || a[|a| - 1] == '/' then a + b
    else a + "/" + b
  }

  /** Joining a directory with two different relative names gives two
   *  different paths. */
  lemma PathJoinInjective(a: string, b1: string, b2: string)
    requires '/' !in b1 && '/' !in b2
    requires PathJoin(a, b1) == PathJoin(a, b2)
    ensures b1 == b2
  {
    assert b1 != [] ==> b1[0] in b1;
    assert b2 != [] ==> b2[0] in b2;
    var p := if a == [] || a[|a| - 1] == '/' then a else a + "/";
    assert PathJoin(a, b1) == p + b1 && PathJoin(a, b2) == p + b2;
    assert b1 == (p + b1)[|p|..];
    assert b2 == (p + b2)[|p|..];
  }

  /** `" ".join(words)`. */
  function JoinSpace(words: seq<string>): string
    decreases |words|
  {
    if words == [] then []
    else if |words| == 1 then words[0]
    else words[0] + " " + JoinSpace(words[1..])
  }

  /** `s.split(" ")`: the pieces between single spaces; never an empty list. */
  function SplitSpace(s: string): (r: seq<string>)
    ensures |r| >= 1
  {
    if s == [] then [[]]
    else
      var t := SplitSpace(s[1..]);
      if s[0] == ' ' then [[]] + t else [[s[0]] + t[0]] + t[1..]
  }

  lemma {:induction false} SplitSpaceAfterWord(w: string, s: string)
    requires ' ' !in w
    ensures SplitSpace(w + s) == [w + SplitSpace(s)[0]] + SplitSpace(s)[1..]
    decreases |w|
  {
    var t := SplitSpace(s);
    if w == [] {
      assert w + s == s;
      assert w + t[0] == t[0];
      assert [t[0]] + t[1..] == t;
    } else {
      assert (w + s)[1..] == w[1..] + s;
      assert w[0] in w;
      assert ' ' !in w[1..] by {
        forall i | 0 <= i < |w[1..]| ensures w[1..][i] != ' ' {
          assert w[1..][i] == w[i + 1];
          assert w[i + 1] in w;
        }
      }
      SplitSpaceAfterWord(w[1..], s);
      assert [w[0]] + (w[1..] + SplitSpace(s)[0]) == w + SplitSpace(s)[0];
    }
  }

  /** Splitting the RENEWED_DOMAINS value on single spaces gives the domain
   *  list back, as long as there is at least one domain and no domain holds
   *  a space. */
  lemma {:induction false} SplitJoinSpace(words: seq<string>)
    requires words != []
    requires forall i :: 0 <= i < |words| ==> ' ' !in words[i]
    ensures SplitSpace(JoinSpace(words)) == words
    decreases |words|
  {
    if |words| == 1 {
      SplitSpaceAfterWord(words[0], []);
      assert words[0] + [] == words[0];
      assert words == [words[0]];
    } else {
      var rest := JoinSpace(words[1..]);
      SplitJoinSpace(words[1..]);
      assert words[0] + " " + rest == words[0] + (" " + rest);
      SplitSpaceAfterWord(words[0], " " + rest);
      assert (" " + rest)[1..] == rest;
      assert SplitSpace(" " + rest) == [[]] + words[1..];
      assert words[0] + [] == words[0];
      assert words == [words[0]] + words[1..];
    }
  }
}
