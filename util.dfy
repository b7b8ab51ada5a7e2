/**
 * Value wrappers and the string primitives that the TypeScript front end and
 * the Rust back ends rely on: the white-space classes of JavaScript and Rust,
 * trimming, prefix/suffix tests, and splitting/joining on one separator.
 */
module Util {

  datatype Option<T> = None | Some(value: T)
  {
    function GetOr(default: T): T
    {
      if Some? then value else default
    }
  }

  datatype Result<T, E> = Ok(value: T) | Err(error: E)

  /** ECMAScript LineTerminator: LF, CR, LINE SEPARATOR, PARAGRAPH SEPARATOR. */
  const JsLineTerminators: set<char> := {'\n', '\r', '\U{2028}', '\U{2029}'}

  /**
   * ECMAScript WhiteSpace plus LineTerminator: what `\s` matches in a regular
   * expression and what String.prototype.trim removes. U+200B is not in it.
   */
  const JsSpace: set<char> := {
    '\t', '\n', '\U{000B}', '\U{000C}', '\r', ' ', '\U{00A0}', '\U{1680}',
    '\U{2000}', '\U{2001}', '\U{2002}', '\U{2003}', '\U{2004}', '\U{2005}',
    '\U{2006}', '\U{2007}', '\U{2008}', '\U{2009}', '\U{200A}',
    '\U{2028}', '\U{2029}', '\U{202F}', '\U{205F}', '\U{3000}', '\U{FEFF}'
  }

  /** Unicode White_Space, what Rust's `char::is_whitespace` and `str::trim` use. */
  const RustSpace: set<char> := {
    '\t', '\n', '\U{000B}', '\U{000C}', '\r', ' ', '\U{0085}', '\U{00A0}', '\U{1680}',
    '\U{2000}', '\U{2001}', '\U{2002}', '\U{2003}', '\U{2004}', '\U{2005}',
    '\U{2006}', '\U{2007}', '\U{2008}', '\U{2009}', '\U{200A}',
    '\U{2028}', '\U{2029}', '\U{202F}', '\U{205F}', '\U{3000}'
  }

  predicate StartsWith(s: string, prefix: string)
  {
    |prefix| <= |s| && s[..|prefix|] == prefix
  }

  predicate EndsWith(s: string, suffix: string)
  {
    |suffix| <= |s| && s[|s| - |suffix|..] == suffix
  }

  /** The index of the first character at or after `i` that is not in `ws` (or `|s|`). */
  function SkipStart(s: string, ws: set<char>, i: nat): (j: nat)
    requires i <= |s|
    ensures i <= j <= |s|
    decreases |s| - i
  {
    if i < |s| && s[i] in ws then SkipStart(s, ws, i + 1) else i
  }

  /** The index just past the last character before `j` that is not in `ws` (or 0). */
  function SkipEnd(s: string, ws: set<char>, j: nat): (i: nat)
    requires j <= |s|
    ensures i <= j
    decreases j
  {
    if j > 0 && s[j - 1] in ws then SkipEnd(s, ws, j - 1) else j
  }

  lemma {:induction false} SkipStartSpec(s: string, ws: set<char>, i: nat)
    requires i <= |s|
    ensures forall k :: i <= k < SkipStart(s, ws, i) ==> s[k] in ws
    ensures SkipStart(s, ws, i) < |s| ==> s[SkipStart(s, ws, i)] !in ws
    decreases |s| - i
  {
    if i < |s| && s[i] in ws {
      SkipStartSpec(s, ws, i + 1);
    }
  }

  lemma {:induction false} SkipEndSpec(s: string, ws: set<char>, j: nat)
    requires j <= |s|
    ensures forall k :: SkipEnd(s, ws, j) <= k < j ==> s[k] in ws
    ensures SkipEnd(s, ws, j) > 0 ==> s[SkipEnd(s, ws, j) - 1] !in ws
    decreases j
  {
    if j > 0 && s[j - 1] in ws {
      SkipEndSpec(s, ws, j - 1);
    }
  }

  /** Both ends; `Trim(s, JsSpace)` is String.prototype.trim, `Trim(s, RustSpace)` is str::trim. */
  function Trim(s: string, ws: set<char>): string
  {
    var a := SkipStart(s, ws, 0);
    var b := SkipEnd(s, ws, |s|);
    if a < b then s[a..b] else []
  }

  /** What trimming keeps: the slice between the first and the last character outside `ws`. */
  lemma TrimSpec(s: string, ws: set<char>)
    ensures var r := Trim(s, ws);
            && (r == [] <==> forall k :: 0 <= k < |s| ==> s[k] in ws)
            && (r == [] || (r[0] !in ws && r[|r| - 1] !in ws))
            && |r| <= |s|
            && (forall c :: c in r ==> c in s)
  {
    var a := SkipStart(s, ws, 0);
    var b := SkipEnd(s, ws, |s|);
    SkipStartSpec(s, ws, 0);
    SkipEndSpec(s, ws, |s|);
    var r := Trim(s, ws);
    if a < b {
      assert r == s[a..b];
      assert forall c :: c in r ==> c in s by {
        forall c | c in r ensures c in s {
          var k :| 0 <= k < |r| && r[k] == c;
          assert s[a + k] == c;
        }
      }
    }
  }

  /** Trimming a string that neither starts nor ends with a trimmed character changes nothing. */
  lemma TrimUnchanged(s: string, ws: set<char>)
    requires s == [] || (s[0] !in ws && s[|s| - 1] !in ws)
    ensures Trim(s, ws) == s
  {
    if s != [] {
      assert s[..|s|] == s;
    }
  }

  /** Rust's `str::trim_end_matches` with a string pattern: removes every repeat of `suffix` at the end. */
  function TrimEndMatches(s: string, suffix: string): (r: string)
    requires suffix != []
    ensures |r| <= |s| && r == s[..|r|]
    ensures !EndsWith(r, suffix)
    decreases |s|
  {
    if EndsWith(s, suffix) then TrimEndMatches(s[..|s| - |suffix|], suffix) else s
  }

  /** `s.split(sep)` in both JavaScript and Rust: k separators give k + 1 pieces. */
  function Split(s: string, sep: char): (parts: seq<string>)
    ensures |parts| >= 1
    ensures forall i :: 0 <= i < |parts| ==> sep !in parts[i]
    decreases |s|
  {
    if s == [] then [""]
    else
      var rest := Split(s[1..], sep);
      if s[0] == sep then [""] + rest
      else [[s[0]] + rest[0]] + rest[1..]
  }

  /** `parts.join(sep)`. */
  function Join(parts: seq<string>, sep: char): string
  {
    if |parts| == 0 then ""
    else if |parts| == 1 then parts[0]
    else parts[0] + [sep] + Join(parts[1..], sep)
  }

  lemma {:induction false} JoinSplit(s: string, sep: char)
    ensures Join(Split(s, sep), sep) == s
    decreases |s|
  {
    if s != [] {
      var rest := Split(s[1..], sep);
      JoinSplit(s[1..], sep);
      if s[0] == sep {
        assert ([""] + rest)[1..] == rest;
      } else {
        var p := [[s[0]] + rest[0]] + rest[1..];
        if |rest| == 1 {
          assert Join(rest, sep) == rest[0];
          assert [s[0]] + s[1..] == s;
          assert p == [s];
        } else {
          assert p[1..] == rest[1..];
          assert Join(rest, sep) == rest[0] + [sep] + Join(rest[1..], sep);
        }
      }
    }
  }

  lemma {:induction false} JoinSnoc(parts: seq<string>, x: string, sep: char)
    requires |parts| >= 1
    ensures Join(parts + [x], sep) == Join(parts, sep) + [sep] + x
    decreases |parts|
  {
    if |parts| == 1 {
      assert parts + [x] == [parts[0], x];
      assert ([parts[0], x])[1..] == [x];
    } else {
      assert (parts + [x])[1..] == parts[1..] + [x];
      JoinSnoc(parts[1..], x, sep);
    }
  }

  lemma {:induction false} SplitJoin(parts: seq<string>, sep: char)
    requires |parts| >= 1
    requires forall i :: 0 <= i < |parts| ==> sep !in parts[i]
    ensures Split(Join(parts, sep), sep) == parts
    decreases |parts|, |parts[0]|
  {
    if |parts| == 1 {
      SplitNoSep(parts[0], sep);
    } else if parts[0] == [] {
      var tail := Join(parts[1..], sep);
      assert Join(parts, sep) == [sep] + tail;
      assert ([sep] + tail)[1..] == tail;
      SplitJoin(parts[1..], sep);
      assert [""] + parts[1..] == parts;
    } else {
      var c := parts[0][0];
      var shorter := [parts[0][1..]] + parts[1..];
      assert shorter[1..] == parts[1..];
      assert Join(parts, sep) == [c] + Join(shorter, sep);
      assert ([c] + Join(shorter, sep))[1..] == Join(shorter, sep);
      SplitJoin(shorter, sep);
      assert [c] + shorter[0] == parts[0];
      assert [[c] + shorter[0]] + shorter[1..] == parts;
    }
  }

  lemma {:induction false} SplitNoSep(s: string, sep: char)
    requires sep !in s
    ensures Split(s, sep) == [s]
    decreases |s|
  {
    if s != [] {
      SplitNoSep(s[1..], sep);
      assert [s[0]] + s[1..] == s;
    }
  }

  lemma {:induction false} JoinNoSep(parts: seq<string>, sep: char)
    requires forall i :: 0 <= i < |parts| ==> sep !in parts[i]
    ensures sep in Join(parts, sep) <==> |parts| >= 2
    decreases |parts|
  {
    if |parts| >= 2 {
      assert Join(parts, sep)[|parts[0]|] == sep;
    }
  }

  /** Concatenation is associative. */
  lemma AppendAssoc<T>(a: seq<T>, b: seq<T>, c: seq<T>)
    ensures a + (b + c) == (a + b) + c
  {
  }
}
