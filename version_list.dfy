/** The `--list` mode of the DMR++ invariant builder: the builder version
    with every `-` turned into `.`, split on `.` (Python's str.replace and
    str.split with a one-character separator). */
module VersionList {

  /** str.replace(a, b) for one-character strings. */
  function ReplaceChar(s: string, a: char, b: char): (r: string)
    ensures |r| == |s|
    ensures a != b ==> a !in r
  {
    seq(|s|, i requires 0 <= i < |s| => if s[i] == a then b else s[i])
  }

  /** str.split(sep): the pieces between separators, always at least one,
      empty pieces kept. */
  function Split(s: string, sep: char): (parts: seq<string>)
    ensures |parts| >= 1
    decreases |s|
  {
    if s == [] then [""]
    else
      var tail := Split(s[1..], sep);
      if s[0] == sep then [""] + tail else [[s[0]] + tail[0]] + tail[1..]
  }

  /** sep.join(parts). */
  function Join(parts: seq<string>, sep: char): string
    requires |parts| >= 1
    decreases |parts|
  {
    if |parts| == 1 then parts[0] else parts[0] + [sep] + Join(parts[1..], sep)
  }

  /** The number of times `c` occurs in `s`. */
  function Occurrences(s: string, c: char): nat
    decreases |s|
  {
    if s == [] then 0 else (if s[0] == c then 1 else 0) + Occurrences(s[1..], c)
  }

  /** The version numbers the `--list` mode prints. */
  function VersionNumbers(v: string): seq<string>
  {
    Split(ReplaceChar(v, '-', '.'), '.')
  }

  /** Joining the pieces with the separator gives back the string. */
  lemma {:induction false} JoinSplit(s: string, sep: char)
    ensures Join(Split(s, sep), sep) == s
    decreases |s|
  {
    if s != [] {
      var tail := Split(s[1..], sep);
      JoinSplit(s[1..], sep);
      if s[0] == sep {
        JoinEmptyHead(tail, sep);
      } else {
        JoinCharHead(s[0], tail, sep);
      }
      assert s == [s[0]] + s[1..];
    }
  }

  lemma JoinEmptyHead(parts: seq<string>, sep: char)
    requires |parts| >= 1
    ensures Join([""] + parts, sep) == [sep] + Join(parts, sep)
  {
    var p := [""] + parts;
    assert p[0] == "" && p[1..] == parts;
  }

  lemma JoinCharHead(c: char, parts: seq<string>, sep: char)
    requires |parts| >= 1
    ensures Join([[c] + parts[0]] + parts[1..], sep) == [c] + Join(parts, sep)
  {
    var p := [[c] + parts[0]] + parts[1..];
    if |parts| == 1 {
      assert p == [[c] + parts[0]];
    } else {
      assert p[0] == [c] + parts[0] && p[1..] == parts[1..];
    }
  }

  /** No piece holds the separator; there is one piece more than separators. */
  lemma {:induction false} SplitPieces(s: string, sep: char)
    ensures forall p <- Split(s, sep) :: sep !in p
    ensures |Split(s, sep)| == Occurrences(s, sep) + 1
    decreases |s|
  {
    if s != [] {
      SplitPieces(s[1..], sep);
      var tail := Split(s[1..], sep);
      if s[0] != sep {
        assert tail[0] in tail;
        var parts := [[s[0]] + tail[0]] + tail[1..];
        forall p <- parts ensures sep !in p {
          if p != parts[0] {
            var k :| 0 <= k < |parts| && parts[k] == p;
            assert p == tail[k];
          }
        }
      }
    }
  }

  /** Splitting a join of separator-free pieces gives back the pieces. */
  lemma {:induction false} SplitJoin(parts: seq<string>, sep: char)
    requires |parts| >= 1
    requires forall p <- parts :: sep !in p
    ensures Split(Join(parts, sep), sep) == parts
    decreases |parts|, |parts[0]|
  {
    if parts[0] != [] {
      var p0 := parts[0];
      var shorter := [p0[1..]] + parts[1..];
      forall p <- shorter ensures sep !in p {
        if p != p0[1..] {
          var k :| 0 <= k < |shorter| && shorter[k] == p;
          assert p == parts[k] && parts[k] in parts;
        } else {
          assert p0 in parts;
          forall i | 0 <= i < |p| ensures p[i] != sep {
            assert p[i] == p0[i + 1] && p0[i + 1] in p0;
          }
        }
      }
      SplitJoin(shorter, sep);
      var j := Join(parts, sep);
      assert j == [p0[0]] + Join(shorter, sep) by {
        if |parts| == 1 {
          assert p0 == [p0[0]] + p0[1..];
        } else {
          assert shorter[1..] == parts[1..];
          assert p0 == [p0[0]] + p0[1..];
        }
      }
      assert p0[0] in p0;
      assert j[0] == p0[0] && j[1..] == Join(shorter, sep);
      assert [p0[0]] + shorter[0] == p0;
      assert shorter[1..] == parts[1..];
    } else if |parts| > 1 {
      SplitJoin(parts[1..], sep);
      var j := Join(parts, sep);
      assert j == [sep] + Join(parts[1..], sep);
      assert j[0] == sep && j[1..] == Join(parts[1..], sep);
      assert parts == [""] + parts[1..];
    } else {
      assert parts == [""];
    }
  }

  /** The `--list` numbers joined with "." give the version with `-` turned
      into `.`, and none of them holds a `.` or a `-`. */
  lemma VersionNumbersRejoin(v: string)
    ensures Join(VersionNumbers(v), '.') == ReplaceChar(v, '-', '.')
    ensures forall p <- VersionNumbers(v) :: '.' !in p && '-' !in p
  {
    var r := ReplaceChar(v, '-', '.');
    JoinSplit(r, '.');
    SplitPieces(r, '.');
    assert '-' !in r;
    forall p <- VersionNumbers(v) ensures '-' !in p {
      NoCharInPiece(r, '.', '-', p);
    }
  }

  lemma {:induction false} NoCharInPiece(s: string, sep: char, c: char, p: string)
    requires c !in s && p in Split(s, sep)
    ensures c !in p
    decreases |s|
  {
    if s != [] {
      var tail := Split(s[1..], sep);
      assert forall i :: 0 <= i < |s[1..]| ==> s[1..][i] == s[i + 1];
      if s[0] == sep {
        if p != "" { NoCharInPiece(s[1..], sep, c, p); }
      } else {
        var parts := [[s[0]] + tail[0]] + tail[1..];
        assert tail[0] in tail;
        NoCharInPiece(s[1..], sep, c, tail[0]);
        if p == parts[0] {
          assert s[0] != c;
        } else {
          var k :| 0 <= k < |parts| && parts[k] == p;
          assert p == tail[k];
          NoCharInPiece(s[1..], sep, c, p);
        }
      }
    }
  }
}
