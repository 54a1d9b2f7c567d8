/** The optional value returned by lookups that can miss (a DOM query, a
    dictionary lookup, a regular-expression match). */
module Wrappers {
  datatype Option<+T> = None | Some(value: T)
}

/** String operations the userscripts take from JavaScript's String API:
    trim, includes, indexOf, split and replace with a string pattern. */
module Text {
  import opened Wrappers

  /** A code point that `String.prototype.trim` removes and that the regular
      expression class `\s` matches: the WhiteSpace and LineTerminator
      productions of ECMAScript. */
  predicate IsSpace(c: char) {
    c == '\t' || c == '\n' || c == '\U{000B}' || c == '\U{000C}' || c == '\r' || c == ' '
    || c == '\U{00A0}' || c == '\U{1680}' || ('\U{2000}' <= c <= '\U{200A}')
    || c == '\U{2028}' || c == '\U{2029}' || c == '\U{202F}' || c == '\U{205F}'
    || c == '\U{3000}' || c == '\U{FEFF}'
  }

  /** The regular expression class `\d`. */
  predicate IsDigit(c: char) {
    '0' <= c <= '9'
  }

  /** The regular expression class `\w`. */
  predicate IsWordChar(c: char) {
    ('a' <= c <= 'z') || ('A' <= c <= 'Z') || IsDigit(c) || c == '_'
  }

  predicate AllDigits(s: string) {
    forall i :: 0 <= i < |s| ==> IsDigit(s[i])
  }

  predicate AllSpace(s: string) {
    forall i :: 0 <= i < |s| ==> IsSpace(s[i])
  }

  /** Neither end of `s` is whitespace: what `trim` leaves alone. */
  predicate Trimmed(s: string) {
    s == [] || (!IsSpace(s[0]) && !IsSpace(s[|s| - 1]))
  }

  /** `s` without its leading whitespace. */
  function TrimStart(s: string): string {
    if |s| > 0 && IsSpace(s[0]) then TrimStart(s[1..]) else s
  }

  /** What `TrimStart` removes is the whitespace before the first other
      character. */
  lemma {:induction false} TrimStartSpec(s: string)
    ensures var r := TrimStart(s);
            && |r| <= |s| && r == s[|s| - |r|..]
            && (r == [] || !IsSpace(r[0]))
            && AllSpace(s[..|s| - |r|])
  {
    if |s| > 0 && IsSpace(s[0]) {
      TrimStartSpec(s[1..]);
      var r := TrimStart(s);
      assert s[..|s| - |r|] == [s[0]] + s[1..][..|s| - 1 - |r|];
    }
  }

  /** `s` without its trailing whitespace. */
  function TrimEnd(s: string): string {
    if |s| > 0 && IsSpace(s[|s| - 1]) then TrimEnd(s[..|s| - 1]) else s
  }

  /** What `TrimEnd` removes is the whitespace after the last other
      character. */
  lemma {:induction false} TrimEndSpec(s: string)
    ensures var r := TrimEnd(s);
            && |r| <= |s| && r == s[..|r|]
            && (r == [] || !IsSpace(r[|r| - 1]))
            && AllSpace(s[|r|..])
  {
    if |s| > 0 && IsSpace(s[|s| - 1]) {
      var p := s[..|s| - 1];
      TrimEndSpec(p);
      var r := TrimEnd(s);
      assert s[|r|..] == p[|r|..] + [s[|s| - 1]];
    }
  }

  /** `String.prototype.trim`: the slice of `s` left after removing the
      whitespace at both ends. */
  function Trim(s: string): (r: string)
    ensures Trimmed(r) && |r| <= |s|
    ensures Trimmed(s) ==> r == s
  {
    var t := TrimStart(s);
    var r := TrimEnd(t);
    TrimStartSpec(s);
    TrimEndSpec(t);
    assert r != [] ==> r[0] == t[0];
    r
  }

  /** What `trim` removes is whitespace, from the two ends only. */
  lemma TrimSlice(s: string) returns (i: nat)
    ensures i + |Trim(s)| <= |s| && Trim(s) == s[i..i + |Trim(s)|]
    ensures AllSpace(s[..i]) && AllSpace(s[i + |Trim(s)|..])
  {
    var t := TrimStart(s);
    var r := TrimEnd(t);
    TrimStartSpec(s);
    TrimEndSpec(t);
    i := |s| - |t|;
    assert t == s[i..];
    assert r == s[i..i + |r|];
    assert s[i + |r|..] == t[|r|..];
  }

  /** Trimming twice is trimming once. */
  lemma TrimIdempotent(s: string)
    ensures Trim(Trim(s)) == Trim(s)
  {
  }

  /** Whitespace added around an untrimmed core is exactly what `trim` removes. */
  lemma {:induction false} TrimPadded(pre: string, core: string, post: string)
    requires AllSpace(pre) && AllSpace(post) && Trimmed(core) && core != []
    ensures Trim(pre + core + post) == core
  {
    assert pre + core + post == pre + (core + post);
    assert (core + post)[0] == core[0];
    TrimStartPadded(pre, core + post);
    TrimEndPadded(core, post);
    assert Trim(pre + core + post) == TrimEnd(TrimStart(pre + core + post));
  }

  lemma {:induction false} TrimStartPadded(pre: string, rest: string)
    requires AllSpace(pre) && rest != [] && !IsSpace(rest[0])
    ensures TrimStart(pre + rest) == rest
  {
    if pre != [] {
      assert (pre + rest)[1..] == pre[1..] + rest;
      TrimStartPadded(pre[1..], rest);
    } else {
      assert pre + rest == rest;
    }
  }

  lemma {:induction false} TrimEndPadded(core: string, post: string)
    requires AllSpace(post) && core != [] && !IsSpace(core[|core| - 1])
    ensures TrimEnd(core + post) == core
  {
    if post != [] {
      assert (core + post)[..|core + post| - 1] == core + post[..|post| - 1];
      TrimEndPadded(core, post[..|post| - 1]);
    } else {
      assert core + post == core;
    }
  }

  /** `sub` occurs in `s` starting at index `i`. */
  predicate OccursAt(s: string, sub: string, i: int) {
    0 <= i && i + |sub| <= |s| && s[i..i + |sub|] == sub
  }

  /** `s.indexOf(sub, from)`: the first index at or after `from` where `sub` occurs. */
  function IndexFrom(s: string, sub: string, from: nat): (r: Option<nat>)
    requires from <= |s|
    ensures r.Some? ==> from <= r.value && OccursAt(s, sub, r.value)
    ensures r.Some? ==> forall i :: from <= i < r.value ==> !OccursAt(s, sub, i)
    ensures r.None? ==> forall i :: from <= i ==> !OccursAt(s, sub, i)
    decreases |s| - from
  {
    if OccursAt(s, sub, from) then Some(from)
    else if from + |sub| >= |s| then None
    else IndexFrom(s, sub, from + 1)
  }

  /** `s.indexOf(sub)`: the first occurrence of `sub` in `s`, if any. */
  function IndexOf(s: string, sub: string): (r: Option<nat>)
    ensures r.Some? ==> OccursAt(s, sub, r.value)
    ensures r.Some? ==> forall i :: 0 <= i < r.value ==> !OccursAt(s, sub, i)
    ensures r.None? ==> forall i :: !OccursAt(s, sub, i)
  {
    IndexFrom(s, sub, 0)
  }

  /** `s.includes(sub)`. */
  predicate Contains(s: string, sub: string) {
    IndexOf(s, sub).Some?
  }

  lemma ContainsIff(s: string, sub: string)
    ensures Contains(s, sub) <==> exists i :: OccursAt(s, sub, i)
  {
  }

  /** `s.split(sep)` for a string separator. A non-empty separator cuts `s`
      at every occurrence from left to right; the empty separator cuts `s`
      into its single characters (and an empty `s` into no pieces at all). */
  function Split(s: string, sep: string): (r: seq<string>)
    ensures sep != [] ==> |r| >= 1
  {
    if sep == [] then Chars(s) else SplitOn(s, sep)
  }

  /** The single characters of `s`, each as a string of its own. */
  function Chars(s: string): (r: seq<string>)
    ensures |r| == |s| && forall i :: 0 <= i < |s| ==> r[i] == [s[i]]
  {
    if s == [] then [] else [[s[0]]] + Chars(s[1..])
  }

  /** The pieces of `s` between the occurrences of the non-empty `sep`. */
  function SplitOn(s: string, sep: string): (r: seq<string>)
    requires sep != []
    ensures |r| >= 1
    decreases |s|
  {
    match IndexOf(s, sep)
    case None => [s]
    case Some(i) => [s[..i]] + SplitOn(s[i + |sep|..], sep)
  }

  /** Puts the pieces back together with `sep` between them: `Array.prototype.join`. */
  function Join(parts: seq<string>, sep: string): string {
    if parts == [] then ""
    else if |parts| == 1 then parts[0]
    else parts[0] + sep + Join(parts[1..], sep)
  }

  /** Splitting on a non-empty separator loses nothing: joining the pieces
      back with the same separator gives the original string. */
  lemma {:induction false} SplitJoin(s: string, sep: string)
    requires sep != []
    ensures Join(Split(s, sep), sep) == s
    decreases |s|
  {
    match IndexOf(s, sep)
    case None =>
    case Some(i) =>
      var rest := s[i + |sep|..];
      SplitJoin(rest, sep);
      assert SplitOn(s, sep)[1..] == SplitOn(rest, sep);
      assert s == s[..i] + sep + rest by {
        assert s[i..i + |sep|] == sep;
      }
  }

  /** No piece produced by a non-empty separator contains that separator. */
  lemma {:induction false} SplitPiecesFree(s: string, sep: string, k: nat)
    requires sep != [] && k < |Split(s, sep)|
    ensures !Contains(Split(s, sep)[k], sep)
    decreases |s|
  {
    match IndexOf(s, sep)
    case None =>
    case Some(i) =>
      var rest := s[i + |sep|..];
      SplitOnStep(s, sep, i);
      if k == 0 {
        BeforeFirstFree(s, sep, i);
      } else {
        SplitPiecesFree(rest, sep, k - 1);
      }
  }

  /** One step of `SplitOn`: the piece before the first occurrence, then
      the pieces of the rest. */
  lemma SplitOnStep(s: string, sep: string, i: nat)
    requires sep != [] && IndexOf(s, sep) == Some(i)
    ensures SplitOn(s, sep) == [s[..i]] + SplitOn(s[i + |sep|..], sep)
  {
  }

  /** The text before the first occurrence of `sub` does not contain `sub`. */
  lemma BeforeFirstFree(s: string, sub: string, i: nat)
    requires sub != [] && IndexOf(s, sub) == Some(i)
    ensures !Contains(s[..i], sub)
  {
    var p := s[..i];
    if Contains(p, sub) {
      var j := IndexOf(p, sub).value;
      assert p[j..j + |sub|] == s[j..j + |sub|];
      assert OccursAt(s, sub, j);
      assert false;
    }
  }

  /** `s.split(sep)[0]`: the first piece, which JavaScript reports as
      `undefined` (here `None`) only when `s` and `sep` are both empty. */
  function FirstPiece(s: string, sep: string): (r: Option<string>)
    ensures r.None? <==> s == [] && sep == []
    ensures sep != [] ==> r.Some? && r.value <= s && !Contains(r.value, sep)
    ensures sep != [] && Contains(s, sep) ==> r.Some? && OccursAt(s, sep, |r.value|)
    ensures sep != [] && !Contains(s, sep) ==> r == Some(s)
    ensures sep != [] && Contains(s, sep) ==> forall j :: 0 <= j < |r.value| ==> !OccursAt(s, sep, j)
    ensures sep == [] && s != [] ==> r == Some([s[0]])
  {
    var parts := Split(s, sep);
    assert sep != [] ==> !Contains(parts[0], sep) by {
      if sep != [] { SplitPiecesFree(s, sep, 0); }
    }
    if |parts| == 0 then None else Some(parts[0])
  }

  /** `s.replace(pat, rep)` with a string pattern: only the first occurrence
      of `pat` is replaced. */
  function ReplaceFirst(s: string, pat: string, rep: string): (r: string)
    ensures !Contains(s, pat) ==> r == s
    ensures Contains(s, pat) ==> exists i :: OccursAt(s, pat, i) && (forall j :: 0 <= j < i ==> !OccursAt(s, pat, j))
                                             && r == s[..i] + rep + s[i + |pat|..]
  {
    match IndexOf(s, pat)
    case None => s
    case Some(i) => s[..i] + rep + s[i + |pat|..]
  }

  /** How many times the character `c` appears in `s`. */
  function CountChar(s: string, c: char): nat {
    if s == [] then 0 else (if s[0] == c then 1 else 0) + CountChar(s[1..], c)
  }

  lemma {:induction false} CountCharConcat(a: string, b: string, c: char)
    ensures CountChar(a + b, c) == CountChar(a, c) + CountChar(b, c)
  {
    if a == [] {
      assert a + b == b;
    } else {
      assert (a + b)[1..] == a[1..] + b;
      CountCharConcat(a[1..], b, c);
    }
  }
}
