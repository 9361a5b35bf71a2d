/** The string and POSIX path functions of Python that the three watchers use:
    `str.rfind`, `str.endswith`, `str.lower` and `os.path.basename`, `dirname`,
    `splitext` and `join` (module posixpath), with CPython's semantics. The
    functions carry only cheap contracts; what they compute is stated by the
    lemmas beside them. */
module PyPath {

  /** `s.rfind(c)`: the index of the last occurrence of `c` in `s`, or -1. */
  function RFind(s: string, c: char): (r: int)
    ensures -1 <= r < |s|
    ensures r >= 0 ==> s[r] == c
  {
    if s == [] then -1
    else if s[|s| - 1] == c then |s| - 1
    else RFind(s[..|s| - 1], c)
  }

  /** No occurrence of `c` follows the one `RFind` finds. */
  lemma {:induction false} RFindIsLast(s: string, c: char)
    ensures forall k :: RFind(s, c) < k < |s| ==> s[k] != c
    decreases |s|
  {
    if s != [] && s[|s| - 1] != c {
      RFindIsLast(s[..|s| - 1], c);
      assert forall k :: RFind(s, c) < k < |s| - 1 ==> s[k] == s[..|s| - 1][k];
    }
  }

  /** `RFind` is determined by those two facts: an index holding `c` with no `c`
      after it. */
  lemma {:induction false} RFindAt(s: string, c: char, i: int)
    requires -1 <= i < |s|
    requires i >= 0 ==> s[i] == c
    requires forall k :: i < k < |s| ==> s[k] != c
    ensures RFind(s, c) == i
    decreases |s|
  {
    if s != [] && i < |s| - 1 {
      RFindAt(s[..|s| - 1], c, i);
    }
  }

  /** The last occurrence of `c` before position `n` is unchanged by cutting at `n`
      when `c` does not occur from `n` on. */
  lemma {:induction false} RFindPrefix(s: string, n: nat, c: char)
    requires n <= |s|
    requires forall k :: n <= k < |s| ==> s[k] != c
    ensures RFind(s[..n], c) == RFind(s, c)
    decreases |s|
  {
    if n < |s| {
      assert s[..|s| - 1][..n] == s[..n];
      RFindPrefix(s[..|s| - 1], n, c);
    } else {
      assert s[..n] == s;
    }
  }

  /** `s.endswith(suffix)`. */
  predicate EndsWith(s: string, suffix: string) {
    |suffix| <= |s| && s[|s| - |suffix|..] == suffix
  }

  /** `c.lower()` for one character; only ASCII letters are mapped. */
  function LowerChar(c: char): char {
    if 'A' <= c <= 'Z' then (c as int + 32) as char else c
  }

  /** `s.lower()`, character by character. */
  function Lower(s: string): (r: string)
    ensures |r| == |s|
    ensures forall i :: 0 <= i < |s| ==> r[i] == LowerChar(s[i])
  {
    seq(|s|, i requires 0 <= i < |s| => LowerChar(s[i]))
  }

  /** Lower-casing twice is lower-casing once. */
  lemma {:induction false} LowerIdempotent(s: string)
    ensures Lower(Lower(s)) == Lower(s)
  {
  }

  /** The last three characters spell `.md` in any mix of upper and lower case. */
  predicate MdSuffixAnyCase(s: string) {
    |s| >= 3 && s[|s| - 3] == '.' && s[|s| - 2] in {'m', 'M'} && s[|s| - 1] in {'d', 'D'}
  }

  /** `s.lower().endswith(".md")` holds exactly when `s` ends in `.md` in any case. */
  lemma {:induction false} LowerEndsWithMd(s: string)
    ensures EndsWith(Lower(s), ".md") <==> MdSuffixAnyCase(s)
  {
    if |s| >= 3 {
      var t := Lower(s)[|s| - 3..];
      assert t == [LowerChar(s[|s| - 3]), LowerChar(s[|s| - 2]), LowerChar(s[|s| - 1])];
    }
  }

  predicate AllSlashes(s: string) {
    forall i :: 0 <= i < |s| ==> s[i] == '/'
  }

  predicate AllDots(s: string) {
    forall i :: 0 <= i < |s| ==> s[i] == '.'
  }

  /** `s.rstrip('/')`. */
  function RStripSlashes(s: string): (r: string)
    ensures |r| <= |s| && r == s[..|r|]
    ensures r == [] || r[|r| - 1] != '/'
    ensures AllSlashes(s[|r|..])
  {
    if s != [] && s[|s| - 1] == '/' then
      var r := RStripSlashes(s[..|s| - 1]);
      assert s[|r|..] == s[..|s| - 1][|r|..] + ['/'];
      r
    else s
  }

  /** `os.path.basename(p)`: everything after the last slash. */
  function Basename(p: string): (r: string)
    ensures |r| <= |p|
  {
    p[RFind(p, '/') + 1..]
  }

  /** The base name is the part of `p` after its last slash: it holds no slash,
      and it is all of `p` or preceded by a slash. */
  lemma {:induction false} BasenameSpec(p: string)
    ensures '/' !in Basename(p)
    ensures p == p[..|p| - |Basename(p)|] + Basename(p)
    ensures |Basename(p)| < |p| ==> p[|p| - |Basename(p)| - 1] == '/'
  {
    var i := RFind(p, '/');
    var r := p[i + 1..];
    assert r == Basename(p);
    assert |p| - |r| == i + 1;
    RFindIsLast(p, '/');
    forall k | 0 <= k < |r| ensures r[k] != '/' {
      assert r[k] == p[i + 1 + k];
    }
    assert p == p[..i + 1] + r;
  }

  /** `os.path.dirname(p)`: everything before the last slash, with trailing
      slashes removed unless the head consists of slashes only. */
  function Dirname(p: string): (r: string)
    ensures |r| <= |p| && r == p[..|r|]
  {
    var head := p[..RFind(p, '/') + 1];
    if head != [] && !AllSlashes(head) then RStripSlashes(head) else head
  }

  /** `os.path.join(a, b)` for two components. */
  function Join(a: string, b: string): string {
    if |b| > 0 && b[0] == '/' then b
    else if a == [] || a[|a| - 1] == '/' then a + b
    else a + "/" + b
  }

  /** A relative second component ends the joined path. */
  lemma {:induction false} JoinEndsWith(a: string, b: string)
    requires b != [] && b[0] != '/'
    ensures EndsWith(Join(a, b), b)
  {
    var j := Join(a, b);
    assert j[|j| - |b|..] == b;
  }

  /** Joining a directory and a plain file name gives a path whose last component
      is that file name, and, when the directory has no trailing slash, whose
      directory is that directory. */
  lemma {:induction false} JoinFile(dir: string, name: string)
    requires '/' !in name && name != []
    ensures Basename(Join(dir, name)) == name
    ensures dir != [] && dir[|dir| - 1] != '/' && !AllSlashes(dir) ==>
      Dirname(Join(dir, name)) == dir
  {
    var j := Join(dir, name);
    var i := |j| - |name| - 1;
    assert j[i + 1..] == name;
    assert i >= 0 ==> j[i] == '/';
    assert forall k :: i < k < |j| ==> j[k] != '/' by {
      forall k | i < k < |j| ensures j[k] != '/' {
        assert j[k] == name[k - i - 1];
      }
    }
    RFindAt(j, '/', i);
    if dir != [] && dir[|dir| - 1] != '/' && !AllSlashes(dir) {
      DirnameOfJoin(dir, name, i);
    }
  }

  /** The directory part of `dir + "/" + name`, once the last slash is known. */
  lemma {:induction false} DirnameOfJoin(dir: string, name: string, i: int)
    requires dir != [] && dir[|dir| - 1] != '/' && !AllSlashes(dir)
    requires i == |dir| && RFind(Join(dir, name), '/') == i
    requires name != [] && name[0] != '/'
    ensures Dirname(Join(dir, name)) == dir
  {
    var j := Join(dir, name);
    assert j == dir + "/" + name;
    var head := j[..i + 1];
    assert head == dir + "/";
    assert !AllSlashes(head) by {
      var x :| 0 <= x < |dir| && dir[x] != '/';
      assert head[x] == dir[x];
    }
    assert head[..|head| - 1] == dir;
  }

  /** `os.path.splitext(p)`: splits off the extension that starts at the last dot
      of the last component, unless only dots precede that dot in the component
      (a leading dot does not start an extension). */
  function Splitext(p: string): (string, string) {
    var sep, dot := RFind(p, '/'), RFind(p, '.');
    if dot > sep && !AllDots(p[sep + 1..dot]) then (p[..dot], p[dot..]) else (p, "")
  }

  /** Root and extension together are the path; an extension is a dot followed
      by characters that are neither dots nor slashes, so the root keeps every
      slash of the path. */
  lemma {:induction false} SplitextParts(p: string)
    ensures Splitext(p).0 + Splitext(p).1 == p
    ensures var ext := Splitext(p).1;
      ext == [] || (ext[0] == '.' && '.' !in ext[1..] && '/' !in ext)
  {
    var sep, dot := RFind(p, '/'), RFind(p, '.');
    if dot > sep && !AllDots(p[sep + 1..dot]) {
      var ext := p[dot..];
      assert p[..dot] + ext == p;
      NoneAfter(p, dot - 1, '/');
      NoneAfter(p, dot, '.');
      assert ext[1..] == p[dot + 1..];
    }
  }

  /** Nothing after the last occurrence of `c` is a `c`. */
  lemma {:induction false} NoneAfter(s: string, i: int, c: char)
    requires RFind(s, c) <= i < |s|
    ensures c !in s[i + 1..]
  {
    RFindIsLast(s, c);
    var tail := s[i + 1..];
    forall k | 0 <= k < |tail| ensures tail[k] != c {
      assert tail[k] == s[i + 1 + k];
    }
  }

  /** When `Splitext` splits off an extension, the last component of the root
      holds a character other than a dot: a leading dot starts no extension. */
  lemma {:induction false} SplitextRootNotAllDots(p: string)
    requires Splitext(p).1 != []
    ensures !AllDots(Basename(Splitext(p).0))
  {
    var sep, dot := RFind(p, '/'), RFind(p, '.');
    RFindIsLast(p, '/');
    RFindPrefix(p, dot, '/');
    assert Basename(p[..dot]) == p[sep + 1..dot];
  }

  /** When `Splitext` splits off nothing, every dot of the last component is
      preceded only by dots within that component. */
  lemma {:induction false} SplitextNoExtension(p: string, k: int)
    requires Splitext(p).1 == []
    requires RFind(p, '/') < k < |p| && p[k] == '.'
    ensures AllDots(p[RFind(p, '/') + 1..k])
  {
    var sep, dot := RFind(p, '/'), RFind(p, '.');
    RFindIsLast(p, '.');
    assert k <= dot;
    var b := p[sep + 1..dot];
    assert AllDots(b);
    assert p[sep + 1..k] == b[..k - sep - 1];
  }

  /** In the last component, the last occurrence of a character other than the
      slash is where it is in the whole path, shifted by the component's start. */
  lemma {:induction false} RFindInBasename(p: string, c: char)
    requires c != '/'
    ensures RFind(Basename(p), '/') == -1
    ensures var sep, i := RFind(p, '/'), RFind(p, c);
      RFind(Basename(p), c) == if i > sep then i - sep - 1 else -1
  {
    var b, sep, i := Basename(p), RFind(p, '/'), RFind(p, c);
    assert b == p[sep + 1..];
    assert forall k :: 0 <= k < |b| ==> b[k] != '/' by {
      BasenameSpec(p);
    }
    RFindAt(b, '/', -1);
    var j := if i > sep then i - sep - 1 else -1;
    assert forall k :: j < k < |b| ==> b[k] != c by {
      RFindIsLast(p, c);
      forall k | j < k < |b| ensures b[k] != c {
        assert b[k] == p[sep + 1 + k];
      }
    }
    assert j >= 0 ==> b[j] == c by {
      if j >= 0 { assert b[j] == p[i]; }
    }
    RFindAt(b, c, j);
  }

  /** The extension depends only on the last component. */
  lemma {:induction false} ExtensionOfBasename(p: string)
    ensures Splitext(Basename(p)).1 == Splitext(p).1
    ensures Splitext(Basename(p)).0 == Basename(Splitext(p).0)
  {
    var b, sep, dot := Basename(p), RFind(p, '/'), RFind(p, '.');
    assert b == p[sep + 1..];
    RFindInBasename(p, '.');
    var dot' := if dot > sep then dot - sep - 1 else -1;
    assert RFind(b, '/') == -1 && RFind(b, '.') == dot';
    if dot > sep {
      assert b[0..dot'] == p[sep + 1..dot];
      if !AllDots(p[sep + 1..dot]) {
        assert Splitext(b) == (b[..dot'], b[dot'..]);
        assert b[..dot'] == p[sep + 1..dot] && b[dot'..] == p[dot..];
        assert Splitext(p) == (p[..dot], p[dot..]);
        assert RFind(p[..dot], '/') == sep by {
          assert forall k :: dot <= k < |p| ==> p[k] != '/' by {
            RFindIsLast(p, '/');
          }
          RFindPrefix(p, dot, '/');
        }
        assert p[..dot][sep + 1..] == p[sep + 1..dot];
      } else {
        assert Splitext(b) == (b, "") && Splitext(p) == (p, "");
      }
    } else {
      assert Splitext(b) == (b, "") && Splitext(p) == (p, "");
    }
  }

  /** The name without its last extension never holds a slash. */
  lemma {:induction false} StemOfBasename(p: string)
    ensures '/' !in Splitext(Basename(p)).0
  {
    BasenameSpec(p);
    SplitextParts(Basename(p));
    var b, stem := Basename(p), Splitext(Basename(p)).0;
    forall k | 0 <= k < |stem| ensures stem[k] != '/' {
      assert stem[k] == b[k];
    }
  }

  /** Two examples of Python's `os.path.splitext`: only the last dot counts, and
      a name that is a dot and an extension has none. */
  lemma SplitextExamples()
    ensures Splitext("a.b.md") == ("a.b", ".md")
    ensures Splitext(".md") == (".md", "")
  {
    RFindAt("a.b.md", '/', -1);
    RFindAt("a.b.md", '.', 3);
    assert "a.b.md"[0..3] == "a.b";
    assert !AllDots("a.b") by { assert "a.b"[0] == 'a'; }
    RFindAt(".md", '/', -1);
    RFindAt(".md", '.', 0);
    assert AllDots(".md"[0..0]);
  }

  /** A file named ".md", in any directory, splits into its whole name and no
      extension. */
  lemma {:induction false} DotMdRoot(dir: string)
    ensures Splitext(Basename(Join(dir, ".md"))) == (".md", "")
  {
    JoinFile(dir, ".md");
    SplitextExamples();
  }
}

/** Python's `pathlib.PurePosixPath`: a path is parsed into an anchor and a list of
    parts, empty and "." parts being dropped; `name`, `suffix`, `stem`, `parent`,
    `str()` and the `/` operator follow CPython up to version 3.13. */
module PurePath {
  import opened PyPath

  /** `s.split('/')`. */
  function Split(s: string): (r: seq<string>)
    ensures |r| >= 1
    decreases |s|
  {
    var i := RFind(s, '/');
    if i < 0 then [s] else Split(s[..i]) + [s[i + 1..]]
  }

  /** The pieces hold no slash. */
  lemma {:induction false} SplitNoSlash(s: string)
    ensures forall i :: 0 <= i < |Split(s)| ==> '/' !in Split(s)[i]
    decreases |s|
  {
    var i := RFind(s, '/');
    RFindIsLast(s, '/');
    if i < 0 {
      assert forall k :: 0 <= k < |s| ==> s[k] != '/';
    } else {
      SplitNoSlash(s[..i]);
      var last := s[i + 1..];
      forall k | 0 <= k < |last| ensures last[k] != '/' { assert last[k] == s[i + 1 + k]; }
    }
  }

  /** The parts kept by the parser: neither empty nor ".". */
  function KeepParts(ss: seq<string>): (r: seq<string>)
    ensures forall i :: 0 <= i < |r| ==> r[i] != "" && r[i] != "." && r[i] in ss
  {
    if ss == [] then []
    else
      var rest := KeepParts(ss[..|ss| - 1]);
      var last := ss[|ss| - 1];
      if last == "" || last == "." then rest else rest + [last]
  }

  /** The anchor: "//" for exactly two leading slashes, "/" for one or three and
      more, "" for a relative path. */
  function Root(p: string): string {
    if |p| >= 2 && p[0] == '/' && p[1] == '/' && (|p| == 2 || p[2] != '/') then "//"
    else if |p| >= 1 && p[0] == '/' then "/"
    else ""
  }

  function Parts(p: string): seq<string> {
    KeepParts(Split(p))
  }

  /** Every part is a non-empty component other than "." without a slash. */
  lemma {:induction false} PartsSpec(p: string)
    ensures forall i :: 0 <= i < |Parts(p)| ==>
      '/' !in Parts(p)[i] && Parts(p)[i] != "" && Parts(p)[i] != "."
  {
    SplitNoSlash(p);
  }

  /** `'/'.join(ps)`. */
  function JoinParts(ps: seq<string>): string {
    if ps == [] then ""
    else if |ps| == 1 then ps[0]
    else JoinParts(ps[..|ps| - 1]) + "/" + ps[|ps| - 1]
  }

  /** `str()` of a path given by its anchor and parts; "." when both are empty. */
  function Format(root: string, parts: seq<string>): string {
    if root == "" && parts == [] then "." else root + JoinParts(parts)
  }

  /** `str(Path(p))`. */
  function Str(p: string): string {
    Format(Root(p), Parts(p))
  }

  /** `Path(p).name`: the last part, or "" when there is none. */
  function Name(p: string): string {
    var ps := Parts(p);
    if ps == [] then "" else ps[|ps| - 1]
  }

  /** `Path(p).suffix`: from the last dot of the name, when that dot is neither
      the first nor the last character of the name. */
  function Suffix(p: string): string {
    var name := Name(p);
    var i := RFind(name, '.');
    if 0 < i < |name| - 1 then name[i..] else ""
  }

  /** `Path(p).stem`: the name without its suffix. */
  function Stem(p: string): string {
    var name := Name(p);
    var i := RFind(name, '.');
    if 0 < i < |name| - 1 then name[..i] else name
  }

  /** The stem and the suffix make up the name, which holds no slash; a suffix is
      a dot and at least one more character, none of them a dot, and it comes
      after a non-empty stem. */
  lemma {:induction false} StemSuffix(p: string)
    ensures Stem(p) + Suffix(p) == Name(p)
    ensures '/' !in Name(p) && '/' !in Stem(p)
    ensures Suffix(p) != [] ==>
      Suffix(p)[0] == '.' && |Suffix(p)| >= 2 && '.' !in Suffix(p)[1..] && Stem(p) != []
  {
    PartsSpec(p);
    var name := Name(p);
    var i := RFind(name, '.');
    RFindIsLast(name, '.');
    if 0 < i < |name| - 1 {
      assert name[..i] + name[i..] == name;
      var suf := name[i..];
      forall k | 1 <= k < |suf| ensures suf[k] != '.' { assert suf[k] == name[i + k]; }
      forall k | 0 <= k < i ensures name[..i][k] != '/' { assert name[..i][k] == name[k]; }
    }
  }

  /** `str(Path(p).parent)`: the path without its last part. */
  function Parent(p: string): string {
    var ps := Parts(p);
    if ps == [] then Str(p) else Format(Root(p), ps[..|ps| - 1])
  }

  /** `str(Path(a) / b)`: an absolute `b` replaces `a`, otherwise the parts are
      concatenated. */
  function Div(a: string, b: string): string {
    if Root(b) != "" then Str(b) else Format(Root(a), Parts(a) + Parts(b))
  }

  /** A plain file name (no slash, not empty, not ".") is exactly one part. */
  lemma {:induction false} PartsOfName(name: string)
    requires '/' !in name && name != "" && name != "."
    ensures Parts(name) == [name]
  {
    RFindAt(name, '/', -1);
    assert Split(name) == [name];
    assert KeepParts([name]) == KeepParts([]) + [name];
  }

  /** Appending a plain file name to a relative one-part directory. */
  lemma {:induction false} DivPlain(dir: string, name: string)
    requires '/' !in dir && dir != "" && dir != "." && dir[0] != '/'
    requires '/' !in name && name != "" && name != "."
    ensures Div(dir, name) == dir + "/" + name
  {
    PartsOfName(dir);
    PartsOfName(name);
    assert name[0] != '/';
    assert JoinParts([dir, name]) == JoinParts([dir]) + "/" + name;
  }

  /** A plain file name under a relative one-part directory is the second of
      two parts, so it is the path's name. */
  lemma {:induction false} NameOfChild(dir: string, name: string)
    requires '/' !in dir && dir != "" && dir != "."
    requires '/' !in name && name != "" && name != "."
    ensures Parts(dir + "/" + name) == [dir, name]
    ensures Name(dir + "/" + name) == name
  {
    var out := dir + "/" + name;
    var i := |dir|;
    assert out[i] == '/';
    forall k | i < k < |out| ensures out[k] != '/' {
      assert out[k] == name[k - i - 1];
    }
    RFindAt(out, '/', i);
    assert out[..i] == dir && out[i + 1..] == name;
    PartsOfName(dir);
    assert Split(dir) == [dir];
    assert Split(out) == [dir, name];
    assert [dir, name][..1] == [dir];
  }

  /** In a plain file name, a dot that is neither first nor last and has no dot
      after it starts the suffix. */
  lemma {:induction false} SuffixOfPlainName(name: string, i: int)
    requires '/' !in name && name != "" && name != "."
    requires 0 < i < |name| - 1 && name[i] == '.'
    requires forall k :: i < k < |name| ==> name[k] != '.'
    ensures Suffix(name) == name[i..] && Stem(name) == name[..i]
  {
    PartsOfName(name);
    assert Name(name) == name;
    RFindAt(name, '.', i);
  }

  /** Two examples of `pathlib`'s suffix rule, which differs from `splitext` only
      in that a name may not end with the dot: a leading dot starts no suffix, and
      the case of the suffix is kept. */
  lemma {:induction false} SuffixOfDotName(name: string)
    requires name == ".md"
    ensures Suffix(name) == "" && Stem(name) == name
  {
    PartsOfName(name);
    assert Name(name) == name;
    RFindAt(name, '.', 0);
  }

  lemma {:induction false} SuffixKeepsCase(name: string)
    requires name == "notes.MD"
    ensures Suffix(name) == ".MD" && Stem(name) == "notes"
  {
    assert name[5] == '.' && name[6] != '.' && name[7] != '.';
    SuffixOfPlainName(name, 5);
    assert name[5..] == ".MD" && name[..5] == "notes";
  }
}
