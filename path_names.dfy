/** The string handling the pipelines do on file names: Python's
    `str.split` on one separator character and `''.join`, the extension test
    of `addInputFolder`, the stem used by `saveModified`, and the POSIX
    forms of `os.path.split(...)[1]` and `os.path.join`. */
module PathNames {

  /** `s.split(sep)`: the maximal separator-free pieces, in order; always at
      least one piece, and the pieces outnumber the separators by one. */
  function Split(s: string, sep: char): (pieces: seq<string>)
    ensures |pieces| == Count(s, sep) + 1
    ensures forall k :: 0 <= k < |pieces| ==> sep !in pieces[k]
    decreases |s|
  {
    if |s| == 0 then [""]
    else
      var rest := Split(s[1..], sep);
      if s[0] == sep then [""] + rest
      else [[s[0]] + rest[0]] + rest[1..]
  }

  /** How many times `c` occurs in `s`. */
  function Count(s: string, c: char): nat {
    if |s| == 0 then 0 else (if s[0] == c then 1 else 0) + Count(s[1..], c)
  }

  /** `sep.join(pieces)`. */
  function JoinWith(pieces: seq<string>, sep: char): string {
    if |pieces| == 0 then ""
    else if |pieces| == 1 then pieces[0]
    else pieces[0] + [sep] + JoinWith(pieces[1..], sep)
  }

  /** `''.join(pieces)`. */
  function Concat(pieces: seq<string>): string {
    if |pieces| == 0 then "" else pieces[0] + Concat(pieces[1..])
  }

  /** `s` with every `c` deleted. */
  function Without(s: string, c: char): (t: string)
    ensures c !in t
  {
    if |s| == 0 then "" else (if s[0] == c then "" else [s[0]]) + Without(s[1..], c)
  }

  /** Joining the pieces of a split with the same separator gives the string back. */
  lemma {:induction false} SplitJoin(s: string, sep: char)
    ensures JoinWith(Split(s, sep), sep) == s
    decreases |s|
  {
    if |s| > 0 {
      var rest := Split(s[1..], sep);
      SplitJoin(s[1..], sep);
      if s[0] == sep {
        assert Split(s, sep) == [""] + rest;
        assert ([""] + rest)[1..] == rest;
        assert s == [sep] + s[1..];
      } else {
        var pieces := Split(s, sep);
        assert pieces == [[s[0]] + rest[0]] + rest[1..];
        if |rest| == 1 {
          assert s == [s[0]] + s[1..];
        } else {
          assert pieces[1..] == rest[1..];
          assert s == [s[0]] + s[1..];
        }
      }
    }
  }

  /** A string without the separator is a single piece. */
  lemma {:induction false} SplitWithoutSeparator(s: string, sep: char)
    requires sep !in s
    ensures Split(s, sep) == [s]
    decreases |s|
  {
    if |s| > 0 {
      assert sep !in s[1..] by {
        forall k | 0 <= k < |s[1..]| ensures s[1..][k] != sep { assert s[1..][k] == s[k + 1]; }
      }
      SplitWithoutSeparator(s[1..], sep);
      assert s == [s[0]] + s[1..];
    }
  }

  /** Splitting around one separator splits each side on its own. */
  lemma {:induction false} SplitAround(a: string, b: string, sep: char)
    ensures Split(a + [sep] + b, sep) == Split(a, sep) + Split(b, sep)
    decreases |a|
  {
    if |a| == 0 {
      assert a + [sep] + b == [sep] + b;
      SplitCons(sep, b, sep);
    } else {
      SplitAround(a[1..], b, sep);
      SplitAroundStep(a[0], a[1..], b, sep);
      assert [a[0]] + a[1..] == a;
    }
  }

  /** The inductive step of `SplitAround`: putting one character in front
      of the left side keeps the equation. */
  lemma SplitAroundStep(c: char, tail: string, b: string, sep: char)
    requires Split(tail + [sep] + b, sep) == Split(tail, sep) + Split(b, sep)
    ensures Split([c] + tail + [sep] + b, sep) == Split([c] + tail, sep) + Split(b, sep)
  {
    var t := tail + [sep] + b;
    assert [c] + tail + [sep] + b == [c] + t;
    var whole, left, right := Split(t, sep), Split(tail, sep), Split(b, sep);
    SplitCons(c, t, sep);
    SplitCons(c, tail, sep);
    ConsPieces(c, left, right, sep);
  }

  /** The piece arithmetic behind `SplitAroundStep`. */
  lemma ConsPieces(c: char, left: seq<string>, right: seq<string>, sep: char)
    requires |left| > 0
    ensures (if c == sep then [""] + (left + right) else [[c] + (left + right)[0]] + (left + right)[1..]) ==
      (if c == sep then [""] + left else [[c] + left[0]] + left[1..]) + right
  {
    if c == sep {
      assert [""] + (left + right) == ([""] + left) + right;
    } else {
      assert (left + right)[1..] == left[1..] + right;
    }
  }

  /** One step of `Split`: a leading separator starts a new piece, any
      other character joins the first piece of the rest. */
  lemma SplitCons(c: char, t: string, sep: char)
    ensures Split([c] + t, sep) ==
      if c == sep then [""] + Split(t, sep)
      else [[c] + Split(t, sep)[0]] + Split(t, sep)[1..]
  {
    assert ([c] + t)[1..] == t;
  }

  /** Concatenating the pieces of a split deletes the separators. */
  lemma {:induction false} ConcatSplit(s: string, sep: char)
    ensures Concat(Split(s, sep)) == Without(s, sep)
    decreases |s|
  {
    if |s| > 0 {
      ConcatSplit(s[1..], sep);
      var rest := Split(s[1..], sep);
      if s[0] == sep {
        assert ([""] + rest)[1..] == rest;
      } else {
        var pieces := [[s[0]] + rest[0]] + rest[1..];
        assert pieces[1..] == rest[1..];
        assert Concat(rest) == rest[0] + Concat(rest[1..]);
      }
    }
  }

  /** The last piece of `s.split(sep)`: `s.split(sep)[-1]`. */
  function LastPiece(s: string, sep: char): (p: string)
    ensures sep !in p
  {
    var pieces := Split(s, sep);
    pieces[|pieces| - 1]
  }

  /** `name.split('.')[-1]`, the text after the last dot. */
  function Extension(name: string): string {
    LastPiece(name, '.')
  }

  /** `''.join(name.split('.')[:-1])`: the pieces before the last dot, glued
      together without their dots. */
  function Stem(name: string): (stem: string)
    ensures '.' !in stem
  {
    var pieces := Split(name, '.');
    ConcatNoSeparator(pieces[..|pieces| - 1], '.');
    Concat(pieces[..|pieces| - 1])
  }

  lemma {:induction false} ConcatNoSeparator(pieces: seq<string>, sep: char)
    requires forall k :: 0 <= k < |pieces| ==> sep !in pieces[k]
    ensures sep !in Concat(pieces)
  {
    if |pieces| > 0 {
      ConcatNoSeparator(pieces[1..], sep);
      assert sep !in pieces[0];
    }
  }

  /** A name with no dot is its own extension and has an empty stem. */
  lemma DotlessName(name: string)
    requires '.' !in name
    ensures Extension(name) == name && Stem(name) == ""
  {
    SplitWithoutSeparator(name, '.');
  }

  /** A name with a dot splits at its last dot `i`: the extension is what
      follows it, and the stem is everything before it with its dots deleted. */
  lemma LastDot(name: string, i: nat)
    requires i < |name| && name[i] == '.' && '.' !in name[i + 1..]
    ensures Extension(name) == name[i + 1..]
    ensures Stem(name) == Without(name[..i], '.')
  {
    var a, b := name[..i], name[i + 1..];
    assert name == a + ['.'] + b;
    SplitAround(a, b, '.');
    SplitWithoutSeparator(b, '.');
    var pieces := Split(name, '.');
    assert pieces == Split(a, '.') + [b];
    assert pieces[..|pieces| - 1] == Split(a, '.');
    ConcatSplit(a, '.');
  }

  /** The extensions the pipelines accept, for input and for output. */
  const FileTypes: seq<string> := ["jpg", "jpeg", "png", "tif"]

  /** The test `addInputFolder` applies to each walked file name. */
  predicate IsImageName(name: string) {
    Extension(name) in FileTypes
  }

  /** `os.path.split(path)[1]`: the text after the last slash. */
  function Basename(path: string): (base: string)
    ensures '/' !in base
  {
    LastPiece(path, '/')
  }

  /** `os.path.join(dir, name)` on POSIX: an absolute `name` replaces `dir`;
      otherwise a slash is inserted unless `dir` is empty or already ends in one. */
  function JoinPath(dir: string, name: string): string {
    if |name| > 0 && name[0] == '/' then name
    else if |dir| == 0 || dir[|dir| - 1] == '/' then dir + name
    else dir + "/" + name
  }

  /** A joined path ends with the name; it is the name when that is
      absolute, and otherwise starts with the directory. */
  lemma JoinPathParts(dir: string, name: string)
    ensures var path := JoinPath(dir, name);
      |name| <= |path| && path[|path| - |name|..] == name
    ensures |name| > 0 && name[0] == '/' ==> JoinPath(dir, name) == name
    ensures !(|name| > 0 && name[0] == '/') ==>
      |dir| <= |JoinPath(dir, name)| && JoinPath(dir, name)[..|dir|] == dir
  {
  }

  /** Joining a relative name onto a directory ends with that name, so the
      saved file keeps the name `saveModified` built. */
  lemma JoinedBasename(dir: string, name: string)
    requires '/' !in name
    ensures Basename(JoinPath(dir, name)) == name
  {
    var path := JoinPath(dir, name);
    if |dir| == 0 || dir[|dir| - 1] == '/' {
      if |dir| == 0 {
        assert path == name;
        SplitWithoutSeparator(name, '/');
      } else {
        var d := dir[..|dir| - 1];
        assert path == d + ['/'] + name;
        SplitAround(d, name, '/');
        SplitWithoutSeparator(name, '/');
      }
    } else {
      assert path == dir + ['/'] + name;
      SplitAround(dir, name, '/');
      SplitWithoutSeparator(name, '/');
    }
  }
}
