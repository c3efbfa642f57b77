/** The Python `str` operations the build scripts rely on: `split`, `zfill`,
    slicing, `replace(pat, "")` and `pathlib.Path(...).name` on POSIX paths. */
module PyStrings {

  /** Number of occurrences of the character `c` in `s`. */
  function Occurrences(s: string, c: char): nat {
    if |s| == 0 then 0 else (if s[0] == c then 1 else 0) + Occurrences(s[1..], c)
  }

  /** `s.split(sep)` for a one-character separator: the pieces between
      separators, empty pieces included. */
  function Split(s: string, sep: char): (parts: seq<string>)
    ensures |parts| == Occurrences(s, sep) + 1
    ensures forall i :: 0 <= i < |parts| ==> sep !in parts[i]
  {
    if |s| == 0 then [""]
    else
      var rest := Split(s[1..], sep);
      if s[0] == sep then [""] + rest
      else [[s[0]] + rest[0]] + rest[1..]
  }

  /** `sep.join(parts)`: the inverse of `Split`. */
  function Join(parts: seq<string>, sep: char): string {
    if |parts| == 0 then ""
    else if |parts| == 1 then parts[0]
    else parts[0] + [sep] + Join(parts[1..], sep)
  }

  lemma JoinThree(a: string, b: string, c: string, sep: char)
    ensures Join([a, b, c], sep) == a + [sep] + b + [sep] + c
  {
    assert [a, b, c][1..] == [b, c];
    assert [b, c][1..] == [c];
    assert Join([b, c], sep) == b + [sep] + c;
    assert Join([a, b, c], sep) == a + [sep] + (b + [sep] + c);
  }

  /** Joining the pieces of a split gives back the string. */
  lemma {:induction false} JoinSplit(s: string, sep: char)
    ensures Join(Split(s, sep), sep) == s
  {
    if |s| > 0 {
      JoinSplit(s[1..], sep);
      var rest := Split(s[1..], sep);
      if s[0] == sep {
        assert Split(s, sep) == [""] + rest;
      } else {
        var parts := Split(s, sep);
        assert parts == [[s[0]] + rest[0]] + rest[1..];
        if |rest| == 1 {
          assert Join(parts, sep) == [s[0]] + rest[0];
        } else {
          assert parts[1..] == rest[1..];
          assert Join(rest, sep) == rest[0] + [sep] + Join(rest[1..], sep);
        }
      }
    }
  }

  /** A piece without the separator splits to itself. */
  lemma {:induction false} SplitNoSeparator(a: string, sep: char)
    requires sep !in a
    ensures Split(a, sep) == [a]
  {
    if |a| > 0 {
      SplitNoSeparator(a[1..], sep);
      assert a == [a[0]] + a[1..];
    }
  }

  /** Splitting at the first separator peels off the first piece. */
  lemma {:induction false} SplitFirst(a: string, sep: char, b: string)
    requires sep !in a
    ensures Split(a + [sep] + b, sep) == [a] + Split(b, sep)
  {
    var s := a + [sep] + b;
    if |a| == 0 {
      assert s[1..] == b;
    } else {
      assert s[1..] == a[1..] + [sep] + b;
      SplitFirst(a[1..], sep, b);
      assert a == [a[0]] + a[1..];
    }
  }

  /** Splitting a join gives back the pieces, when no piece holds the separator. */
  lemma {:induction false} SplitJoin(parts: seq<string>, sep: char)
    requires |parts| > 0
    requires forall i :: 0 <= i < |parts| ==> sep !in parts[i]
    ensures Split(Join(parts, sep), sep) == parts
  {
    if |parts| == 1 {
      SplitNoSeparator(parts[0], sep);
    } else {
      SplitJoin(parts[1..], sep);
      SplitFirst(parts[0], sep, Join(parts[1..], sep));
      assert parts == [parts[0]] + parts[1..];
    }
  }

  function Repeat(c: char, n: nat): (r: string)
    ensures |r| == n && forall i :: 0 <= i < n ==> r[i] == c
  {
    if n == 0 then "" else [c] + Repeat(c, n - 1)
  }

  /** `s.zfill(width)`: pad with `'0'` on the left up to `width` characters,
      keeping a leading `+` or `-` in front of the padding. */
  function ZFill(s: string, width: nat): (r: string)
    ensures |r| == if |s| >= width then |s| else width
    ensures |s| >= width ==> r == s
    ensures |s| < width && (|s| == 0 || (s[0] != '+' && s[0] != '-')) ==>
      r[width - |s|..] == s && forall i :: 0 <= i < width - |s| ==> r[i] == '0'
    ensures |s| < width && |s| > 0 && (s[0] == '+' || s[0] == '-') ==>
      r[0] == s[0] && r[width - |s| + 1..] == s[1..] &&
      forall i :: 1 <= i <= width - |s| ==> r[i] == '0'
  {
    if |s| >= width then s
    else if |s| > 0 && (s[0] == '+' || s[0] == '-') then [s[0]] + Repeat('0', width - |s|) + s[1..]
    else Repeat('0', width - |s|) + s
  }

  /** `s[i:j]` for `0 <= i <= j`: bounds beyond the end are clamped. */
  function Slice(s: string, i: nat, j: nat): (r: string)
    requires i <= j
    ensures j <= |s| ==> r == s[i..j]
    ensures |s| < j ==> r == (if i <= |s| then s[i..] else "")
  {
    if j <= |s| then s[i..j] else if i <= |s| then s[i..] else ""
  }

  /** `s.replace(pat, "")`: one left-to-right scan removing every
      non-overlapping occurrence of `pat`. */
  function RemoveAll(s: string, pat: string): (r: string)
    requires |pat| > 0
    ensures |r| <= |s|
  {
    if |s| == 0 then ""
    else if pat <= s then RemoveAll(s[|pat|..], pat)
    else [s[0]] + RemoveAll(s[1..], pat)
  }

  /** Text in which the pattern cannot even start is kept as it is. */
  lemma {:induction false} RemoveAllKeeps(a: string, b: string, pat: string)
    requires |pat| > 0 && pat[0] !in a
    ensures RemoveAll(a + b, pat) == a + RemoveAll(b, pat)
  {
    if |a| > 0 {
      var s := a + b;
      assert s[0] == a[0] && !(pat <= s);
      assert s[1..] == a[1..] + b;
      assert RemoveAll(s, pat) == [a[0]] + RemoveAll(a[1..] + b, pat);
      RemoveAllKeeps(a[1..], b, pat);
      assert a == [a[0]] + a[1..];
    } else {
      assert a + b == b;
    }
  }

  /** A leading occurrence of the pattern is removed. */
  lemma RemoveAllLeading(pat: string, b: string)
    requires |pat| > 0
    ensures RemoveAll(pat + b, pat) == RemoveAll(b, pat)
  {
    assert pat <= pat + b;
    assert (pat + b)[|pat|..] == b;
  }

  /** The pieces joined with nothing between them. */
  function Concat(ws: seq<string>): string {
    if |ws| == 0 then "" else ws[0] + Concat(ws[1..])
  }

  /** The pieces other than `pat`, in order. */
  function Without(ws: seq<string>, pat: string): (r: seq<string>)
    ensures forall w :: w in r <==> w in ws && w != pat
  {
    if |ws| == 0 then []
    else
      assert forall w :: w in ws <==> w == ws[0] || w in ws[1..];
      (if ws[0] == pat then [] else [ws[0]]) + Without(ws[1..], pat)
  }

  /** `replace(pat, "")` removes every occurrence, not only the first: in a
      text made of copies of the pattern and of pieces in which the pattern
      cannot even start, exactly the copies go. */
  lemma {:induction false} RemoveAllPieces(ws: seq<string>, pat: string)
    requires |pat| > 0
    requires forall w :: w in ws ==> w == pat || pat[0] !in w
    ensures RemoveAll(Concat(ws), pat) == Concat(Without(ws, pat))
  {
    if |ws| > 0 {
      var rest := Concat(ws[1..]);
      RemoveAllPieces(ws[1..], pat);
      if ws[0] == pat {
        RemoveAllLeading(pat, rest);
        assert Without(ws, pat) == [] + Without(ws[1..], pat);
        assert [] + Without(ws[1..], pat) == Without(ws[1..], pat);
      } else {
        RemoveAllKeeps(ws[0], rest, pat);
        assert Without(ws, pat) == [ws[0]] + Without(ws[1..], pat);
        assert Concat([ws[0]] + Without(ws[1..], pat)) == ws[0] + Concat(Without(ws[1..], pat)) by {
          assert ([ws[0]] + Without(ws[1..], pat))[1..] == Without(ws[1..], pat);
        }
      }
    }
  }

  /** Joining a piece in front of the others. */
  lemma ConcatCons(w: string, ws: seq<string>)
    ensures Concat([w] + ws) == w + Concat(ws)
  {
    assert ([w] + ws)[1..] == ws;
  }

  /** Filtering a piece in front of the others. */
  lemma WithoutCons(w: string, ws: seq<string>, pat: string)
    ensures Without([w] + ws, pat) == (if w == pat then [] else [w]) + Without(ws, pat)
  {
    assert ([w] + ws)[1..] == ws;
  }

  /** Joining four pieces. */
  lemma ConcatFour(w0: string, w1: string, w2: string, w3: string)
    ensures Concat([w0, w1, w2, w3]) == w0 + w1 + w2 + w3
  {
    var none: seq<string> := [];
    assert [w0, w1, w2, w3] == [w0] + ([w1] + ([w2] + ([w3] + none)));
    ConcatCons(w3, none);
    ConcatCons(w2, [w3] + none);
    ConcatCons(w1, [w2] + ([w3] + none));
    ConcatCons(w0, [w1] + ([w2] + ([w3] + none)));
    assert w3 + "" == w3;
  }

  /** Filtering four pieces. */
  lemma WithoutFour(w0: string, w1: string, w2: string, w3: string, pat: string)
    ensures Without([w0, w1, w2, w3], pat)
         == (if w0 == pat then [] else [w0]) + (if w1 == pat then [] else [w1])
          + (if w2 == pat then [] else [w2]) + (if w3 == pat then [] else [w3])
  {
    var none: seq<string> := [];
    assert [w0, w1, w2, w3] == [w0] + ([w1] + ([w2] + ([w3] + none)));
    WithoutCons(w3, none, pat);
    WithoutCons(w2, [w3] + none, pat);
    WithoutCons(w1, [w2] + ([w3] + none), pat);
    WithoutCons(w0, [w1] + ([w2] + ([w3] + none)), pat);
  }

  /** A character in none of the pieces is not in the joined text. */
  lemma {:induction false} ConcatLacks(ws: seq<string>, c: char)
    requires forall w :: w in ws ==> c !in w
    ensures c !in Concat(ws)
  {
    if |ws| > 0 {
      ConcatLacks(ws[1..], c);
    }
  }

  /** Splitting before a last piece without the separator appends that
      piece. */
  lemma {:induction false} SplitLast(a: string, sep: char, b: string)
    requires sep !in b
    ensures Split(a + [sep] + b, sep) == Split(a, sep) + [b]
  {
    var s := a + [sep] + b;
    if |a| == 0 {
      assert s[1..] == b;
      SplitNoSeparator(b, sep);
    } else {
      assert s[0] == a[0];
      assert s[1..] == a[1..] + [sep] + b;
      SplitLast(a[1..], sep, b);
    }
  }

  /** The last part that is neither empty nor `.`, or `""` when there is
      none. */
  function LastPart(parts: seq<string>): (name: string)
    ensures name == "" || (name in parts && name != ".")
  {
    if |parts| == 0 then ""
    else
      var last := parts[|parts| - 1];
      if last == "" || last == "." then LastPart(parts[..|parts| - 1]) else last
  }

  /** `Path(path).name` for a POSIX path: pathlib splits the path at `/`,
      drops empty and `.` parts, and names the last part that remains. */
  function PathName(path: string): (name: string)
    ensures '/' !in name && name != "."
  {
    LastPart(Split(path, '/'))
  }

  /** A part pathlib drops: empty (from `//` or a trailing `/`) or `.`. */
  predicate Blank(part: string) {
    part == "" || part == "."
  }

  /** `name` is the last part of `parts` that is not blank, or `""` when
      every part is blank. */
  predicate NamedBy(parts: seq<string>, name: string) {
    if name == "" then forall i :: 0 <= i < |parts| ==> Blank(parts[i])
    else exists i :: 0 <= i < |parts| && parts[i] == name && forall j :: i < j < |parts| ==> Blank(parts[j])
  }

  /** The name is the last part of the path that pathlib keeps. */
  lemma PathNameIsLastPart(path: string)
    ensures NamedBy(Split(path, '/'), PathName(path))
  {
    LastPartSpec(Split(path, '/'));
  }

  lemma {:induction false} LastPartSpec(parts: seq<string>)
    ensures NamedBy(parts, LastPart(parts))
  {
    if |parts| > 0 {
      var n := |parts| - 1;
      var front := parts[..n];
      if Blank(parts[n]) {
        LastPartSpec(front);
        var name := LastPart(front);
        assert LastPart(parts) == name;
        if name != "" {
          var i :| 0 <= i < |front| && front[i] == name && forall j :: i < j < |front| ==> Blank(front[j]);
          assert parts[i] == name && forall j :: i < j < |parts| ==> Blank(parts[j]);
        } else {
          assert forall i :: 0 <= i < n ==> parts[i] == front[i];
        }
      } else {
        assert parts[n] == LastPart(parts);
      }
    }
  }

  /** The name of `dir/name` is `name`, whatever the directory, for a name
      that is a real part (not empty, not `.`). */
  lemma PathNameOfJoin(dir: string, name: string)
    requires '/' !in name && name != "" && name != "."
    ensures PathName(dir + "/" + name) == name
  {
    SplitLast(dir, '/', name);
  }

  /** A trailing blank part, `/` or `/.`, does not change the name. */
  lemma PathNameTrailingBlank(path: string, blank: string)
    requires Blank(blank)
    ensures PathName(path + "/" + blank) == PathName(path)
  {
    assert path + "/" + blank == path + ['/'] + blank;
    SplitLast(path, '/', blank);
    var parts := Split(path, '/');
    assert (parts + [blank])[..|parts|] == parts;
  }

}
