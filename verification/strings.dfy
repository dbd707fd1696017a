/** The PHP string primitives the middleware relies on: truthiness,
    `strtolower`, `explode('.', …)` + `array_pop` (the file extension) and
    `dirname`. */
module Strings {

  /** PHP truthiness of a string: exactly "" and "0" are falsy. So every
      string of two or more characters is truthy, and of the one-character
      strings only "0" is not. */
  predicate Truthy(s: string): (t: bool)
    ensures |s| >= 2 ==> t
    ensures |s| == 1 ==> (t <==> s[0] != '0')
    ensures |s| == 0 ==> !t
  {
    s != "" && s != "0"
  }

  // ---------------------------------------------------------------------------
  // strtolower (ASCII)
  // ---------------------------------------------------------------------------

  predicate IsUpper(c: char) {
    'A' <= c <= 'Z'
  }

  function LowerChar(c: char): char {
    if IsUpper(c) then (c as int + 32) as char else c
  }

  /** `strtolower`: every ASCII capital is replaced by its small letter,
      every other character is kept. */
  function ToLower(s: string): (r: string)
    ensures |r| == |s|
    ensures forall i :: 0 <= i < |s| ==> r[i] == LowerChar(s[i])
  {
    seq(|s|, i requires 0 <= i < |s| => LowerChar(s[i]))
  }

  // ---------------------------------------------------------------------------
  // The text after the last dot; explode / implode on '.'
  // ---------------------------------------------------------------------------

  /** The text after the last '.' of `s`, or the whole of `s` when it has no
      '.'. Scans from the right, one character at a time. */
  function AfterLastDot(s: string): string
    decreases |s|
  {
    if |s| == 0 then ""
    else if s[|s| - 1] == '.' then ""
    else AfterLastDot(s[..|s| - 1]) + [s[|s| - 1]]
  }

  /** `AfterLastDot(s)` is a dot-free suffix of `s` that is either all of `s`
      (exactly when `s` has no dot) or preceded by a dot. */
  lemma {:induction false} AfterLastDotIsSuffix(s: string)
    ensures var r := AfterLastDot(s);
            && '.' !in r
            && |r| <= |s| && r == s[|s| - |r|..]
            && (|r| < |s| ==> s[|s| - |r| - 1] == '.')
            && (|r| == |s| <==> '.' !in s)
    decreases |s|
  {
    if |s| > 0 && s[|s| - 1] != '.' {
      var s' := s[..|s| - 1];
      var c := s[|s| - 1];
      AfterLastDotIsSuffix(s');
      var r' := AfterLastDot(s');
      var r := r' + [c];
      assert r == AfterLastDot(s);
      assert s == s' + [c];
      assert r == s[|s| - |r|..];
      if |r| < |s| {
        assert s[|s| - |r| - 1] == s'[|s'| - |r'| - 1];
      }
      assert '.' !in s' ==> '.' !in s;
      assert '.' in s' ==> '.' in s;
    }
  }

  /** The suffix characterisation pins `AfterLastDot` down: for any dot-free
      `ext`, the text after the last dot of `prefix.ext` is `ext`, whatever
      dots `prefix` holds. */
  lemma AfterLastDotUnique(prefix: string, ext: string)
    requires '.' !in ext
    ensures AfterLastDot(prefix + "." + ext) == ext
  {
    var s := prefix + "." + ext;
    AfterLastDotIsSuffix(s);
    assert s[|s| - |ext| - 1] == '.';
    assert s[|s| - |ext|..] == ext;
  }

  /** The text before the last '.' of `s` (defined when there is one). */
  function BeforeLastDot(s: string): (b: string)
    requires '.' in s
    ensures |b| < |s|
    ensures s == b + "." + AfterLastDot(s)
  {
    AfterLastDotIsSuffix(s);
    var r := AfterLastDot(s);
    var b := s[..|s| - |r| - 1];
    assert s == b + "." + s[|s| - |r|..];
    b
  }

  /** `implode('.', parts)`: the parts joined by dots. */
  function Implode(parts: seq<string>): string
    requires |parts| >= 1
  {
    if |parts| == 1 then parts[0]
    else Implode(parts[..|parts| - 1]) + "." + parts[|parts| - 1]
  }

  /** `explode('.', s)`: the pieces of `s` between its dots, in order; a
      string with k dots has k + 1 pieces (`explode('.', "")` is `[""]`).
      Built from the right, one piece per dot. Every piece is dot-free, and
      the last one is the text after the last dot. */
  function Explode(s: string): (parts: seq<string>)
    ensures |parts| >= 1
    ensures forall i :: 0 <= i < |parts| ==> '.' !in parts[i]
    ensures parts[|parts| - 1] == AfterLastDot(s)
    decreases |s|
  {
    AfterLastDotIsSuffix(s);
    if '.' !in s then
      assert s[0..] == s;
      [s]
    else
      var init := Explode(BeforeLastDot(s));
      var p := init + [AfterLastDot(s)];
      assert forall i :: 0 <= i < |init| ==> p[i] == init[i];
      p
  }

  /** Joining the pieces of `explode` gives back the original string. */
  lemma {:induction false} ImplodeExplode(s: string)
    ensures Implode(Explode(s)) == s
    decreases |s|
  {
    if '.' in s {
      var b := BeforeLastDot(s);
      ImplodeExplode(b);
      var p := Explode(b) + [AfterLastDot(s)];
      assert p[..|p| - 1] == Explode(b);
    }
  }

  /** `explode` inverts `implode` on dot-free pieces: a string has exactly one
      decomposition into dot-free pieces, and `Explode` computes it. */
  lemma {:induction false} ExplodeImplode(parts: seq<string>)
    requires |parts| >= 1
    requires forall i :: 0 <= i < |parts| ==> '.' !in parts[i]
    ensures Explode(Implode(parts)) == parts
    decreases |parts|
  {
    var last := parts[|parts| - 1];
    if |parts| == 1 {
      assert '.' !in last;
    } else {
      var init := parts[..|parts| - 1];
      assert forall i :: 0 <= i < |init| ==> init[i] == parts[i];
      ExplodeImplode(init);
      assert Implode(parts) == Implode(init) + "." + last;
      ExplodeSnoc(Implode(init), last);
      SplitLast(parts);
    }
  }

  /** Appending a dot and a dot-free piece appends one piece to `explode`. */
  lemma ExplodeSnoc(joined: string, last: string)
    requires '.' !in last
    ensures Explode(joined + "." + last) == Explode(joined) + [last]
  {
    SplitAtLastDot(joined, last);
  }

  /** `joined.last`, for a dot-free `last`, splits at its last dot into
      `joined` and `last`. */
  lemma SplitAtLastDot(joined: string, last: string)
    requires '.' !in last
    ensures '.' in joined + "." + last
    ensures BeforeLastDot(joined + "." + last) == joined
    ensures AfterLastDot(joined + "." + last) == last
  {
    var s := joined + "." + last;
    assert s[|joined|] == '.';
    AfterLastDotUnique(joined, last);
    var b := BeforeLastDot(s);
    assert s == b + "." + last;
    assert |b| == |s| - |last| - 1 == |joined|;
    assert b == s[..|b|] && joined == s[..|joined|];
  }

  lemma SplitLast<T>(xs: seq<T>)
    requires |xs| >= 1
    ensures xs[..|xs| - 1] + [xs[|xs| - 1]] == xs
  {
  }

  // ---------------------------------------------------------------------------
  // File extension
  // ---------------------------------------------------------------------------

  /** The extension exactly as `detectMimeType` computes it,
      `strtolower(array_pop(explode('.', $file)))`: the lower-cased text
      after the last '.' of the WHOLE path (directory part included), or the
      whole path lower-cased when it has no '.'. */
  function Extension(path: string): (e: string)
    ensures e == ToLower(AfterLastDot(path))
    ensures '.' !in e
    ensures '.' !in path ==> e == ToLower(path)
  {
    AfterLastDotIsSuffix(path);
    assert '.' !in path ==> path[0..] == path;
    var parts := Explode(path);
    ToLower(parts[|parts| - 1])
  }

  /** For a path `prefix.ext` with a dot-free `ext`, the extension is `ext`
      lower-cased, whatever dots `prefix` holds. */
  lemma ExtensionOfDotted(prefix: string, ext: string)
    requires '.' !in ext
    ensures Extension(prefix + "." + ext) == ToLower(ext)
  {
    AfterLastDotUnique(prefix, ext);
  }

  // ---------------------------------------------------------------------------
  // dirname
  // ---------------------------------------------------------------------------

  /** `s` without its trailing run of characters that are (`slash`) or are
      not (`!slash`) '/'. */
  function TrimEnd(s: string, slash: bool): (r: string)
    ensures |r| <= |s| && r == s[..|r|]
    ensures forall i :: |r| <= i < |s| ==> (s[i] == '/') == slash
    ensures |r| > 0 ==> (r[|r| - 1] == '/') != slash
    decreases |s|
  {
    if |s| > 0 && (s[|s| - 1] == '/') == slash then TrimEnd(s[..|s| - 1], slash)
    else s
  }

  /** PHP's `dirname` on a POSIX system: drop trailing slashes, then the last
      component, then the slashes before it; "/" and "." stand for the root
      and the current directory, and "" stays "". */
  function Dirname(path: string): (r: string)
    ensures r == "" <==> path == ""
    ensures r != "" && r != "/" && r != "." ==>
              && |r| < |path| && r == path[..|r|]
              && path[|r|] == '/' && r[|r| - 1] != '/'
  {
    if path == "" then ""
    else
      var a := TrimEnd(path, true);
      if a == "" then "/"
      else
        var b := TrimEnd(a, false);
        if b == "" then "."
        else
          var c := TrimEnd(b, true);
          if c == "" then "/" else c
  }

  lemma TrimEndOfUnsuited(s: string, slash: bool)
    requires |s| > 0 && (s[|s| - 1] == '/') != slash
    ensures TrimEnd(s, slash) == s
  {
  }

  lemma {:induction false} TrimEndAppend(s: string, t: string, slash: bool)
    requires forall i :: 0 <= i < |t| ==> (t[i] == '/') == slash
    ensures TrimEnd(s + t, slash) == TrimEnd(s, slash)
    decreases |t|
  {
    if |t| > 0 {
      assert (s + t)[..|s + t| - 1] == s + t[..|t| - 1];
      TrimEndAppend(s, t[..|t| - 1], slash);
    } else {
      assert s + t == s;
    }
  }

  /** The parent of `dir/name`, for a slash-free non-empty `name` and a
      directory written without a trailing slash, is `dir`. */
  lemma DirnameOfChild(dir: string, name: string)
    requires |dir| > 0 && dir[|dir| - 1] != '/'
    requires |name| > 0 && '/' !in name
    ensures Dirname(dir + "/" + name) == dir
  {
    var p := dir + "/" + name;
    TrimEndOfUnsuited(p, true);
    assert p == (dir + "/") + name;
    TrimEndAppend(dir + "/", name, false);
    TrimEndOfUnsuited(dir + "/", false);
    TrimEndAppend(dir, "/", true);
    TrimEndOfUnsuited(dir, true);
  }
}
