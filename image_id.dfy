/**
 * The media public id a post's image URL is reduced to before the media
 * store is asked to destroy it: `url.split("/").pop().split(".")[0]`.
 */
module ImageIds {

  /** JavaScript's `String.prototype.split` with a one-character separator. */
  function Split(s: string, sep: char): (parts: seq<string>)
    ensures |parts| >= 1
    ensures forall i :: 0 <= i < |parts| ==> sep !in parts[i]
  {
    if s == [] then [[]]
    else
      var rest := Split(s[1..], sep);
      if s[0] == sep then [[]] + rest
      else [[s[0]] + rest[0]] + rest[1..]
  }

  /** JavaScript's `Array.prototype.join` with a one-character separator. */
  function Join(parts: seq<string>, sep: char): string
    requires |parts| >= 1
  {
    if |parts| == 1 then parts[0] else parts[0] + [sep] + Join(parts[1..], sep)
  }

  /** `split(sep).pop()`: the text after the last separator, or all of it. */
  function LastPiece(s: string, sep: char): string {
    var parts := Split(s, sep);
    parts[|parts| - 1]
  }

  /** `split(sep)[0]`: the text before the first separator, or all of it. */
  function FirstPiece(s: string, sep: char): string {
    Split(s, sep)[0]
  }

  function ImageId(url: string): (id: string)
    ensures '/' !in id && '.' !in id
  {
    var seg := LastPiece(url, '/');
    assert '/' !in seg;
    FirstPieceShape(seg, '.');
    assert forall c :: c in FirstPiece(seg, '.') ==> c in seg;
    FirstPiece(seg, '.')
  }

  /** Joining the pieces back with the separator gives the original string. */
  lemma {:induction false} SplitJoin(s: string, sep: char)
    ensures Join(Split(s, sep), sep) == s
  {
    if s != [] {
      var rest := Split(s[1..], sep);
      SplitJoin(s[1..], sep);
      if s[0] == sep {
        assert Split(s, sep) == [[]] + rest;
        assert ([[]] + rest)[1..] == rest;
      } else if |rest| == 1 {
        assert Split(s, sep) == [[s[0]] + rest[0]];
      } else {
        var parts := Split(s, sep);
        assert parts == [[s[0]] + rest[0]] + rest[1..];
        assert parts[1..] == rest[1..];
        assert Join(rest, sep) == rest[0] + [sep] + Join(rest[1..], sep);
        assert [s[0]] + s[1..] == s;
      }
    }
  }

  /** Splitting a join of separator-free pieces gives the pieces back. */
  lemma {:induction false} JoinSplit(parts: seq<string>, sep: char)
    requires |parts| >= 1
    requires forall i :: 0 <= i < |parts| ==> sep !in parts[i]
    ensures Split(Join(parts, sep), sep) == parts
  {
    if |parts| == 1 {
      PieceSplit(parts[0], sep);
    } else {
      JoinSplit(parts[1..], sep);
      SplitAfterPiece(parts[0], Join(parts[1..], sep), sep);
      assert [parts[0]] + parts[1..] == parts;
    }
  }

  /** A string with no separator splits into itself. */
  lemma {:induction false} PieceSplit(p: string, sep: char)
    requires sep !in p
    ensures Split(p, sep) == [p]
  {
    if p != [] {
      PieceSplit(p[1..], sep);
      assert [p[0]] + p[1..] == p;
    }
  }

  /** A separator-free prefix followed by the separator is split off as one piece. */
  lemma {:induction false} SplitAfterPiece(p: string, t: string, sep: char)
    requires sep !in p
    ensures Split(p + [sep] + t, sep) == [p] + Split(t, sep)
  {
    if p == [] {
      assert p + [sep] + t == [sep] + t;
      assert ([sep] + t)[1..] == t;
    } else {
      var s := p + [sep] + t;
      assert s[0] == p[0];
      assert s[1..] == p[1..] + [sep] + t;
      SplitAfterPiece(p[1..], t, sep);
      assert [p[0]] + p[1..] == p;
    }
  }

  /** The first piece is a prefix, and is followed by the separator unless it is everything. */
  lemma {:induction false} FirstPieceShape(s: string, sep: char)
    ensures var p := FirstPiece(s, sep);
      |p| <= |s| && p == s[..|p|] && (|p| < |s| ==> s[|p|] == sep)
  {
    if s != [] && s[0] != sep {
      FirstPieceShape(s[1..], sep);
    }
  }

  /** The last piece is joined on after the separator. */
  lemma {:induction false} JoinLast(parts: seq<string>, sep: char)
    requires |parts| >= 2
    ensures Join(parts, sep) == Join(parts[..|parts| - 1], sep) + [sep] + parts[|parts| - 1]
  {
    if |parts| > 2 {
      JoinLast(parts[1..], sep);
      assert parts[1..][..|parts| - 2] == parts[..|parts| - 1][1..];
    }
  }

  /** The last piece is a suffix, and is preceded by the separator unless it is everything. */
  lemma LastPieceShape(s: string, sep: char)
    ensures var p := LastPiece(s, sep);
      && |p| <= |s| && p == s[|s| - |p|..]
      && (|p| < |s| ==> s[|s| - |p| - 1] == sep)
  {
    var parts := Split(s, sep);
    var p := parts[|parts| - 1];
    SplitJoin(s, sep);
    if |parts| >= 2 {
      JoinLast(parts, sep);
      var a := Join(parts[..|parts| - 1], sep);
      assert s == a + [sep] + p;
      assert s[|a| + 1..] == p;
    }
  }

  /**
   * The public id is the part of the URL's last `/`-separated segment before
   * that segment's first `.`: it holds neither character, the segment starts
   * the URL or follows a `/`, and the id ends the segment or is followed by `.`.
   */
  lemma ImageIdShape(url: string)
    ensures var seg := LastPiece(url, '/');
      var id := ImageId(url);
      && '/' !in seg && '.' !in id
      && |seg| <= |url| && seg == url[|url| - |seg|..]
      && (|seg| < |url| ==> url[|url| - |seg| - 1] == '/')
      && |id| <= |seg| && id == seg[..|id|]
      && (|id| < |seg| ==> seg[|id|] == '.')
  {
    var parts := Split(url, '/');
    assert '/' !in parts[|parts| - 1];
    LastPieceShape(url, '/');
    FirstPieceShape(LastPiece(url, '/'), '.');
  }

  /** A bare file name without extension is its own public id. */
  lemma ImageIdOfPlainName(name: string)
    requires '/' !in name && '.' !in name
    ensures ImageId(name) == name
  {
    PieceSplit(name, '/');
    PieceSplit(name, '.');
  }

  /** The id of a typical media URL: directories and extension are dropped. */
  lemma ImageIdExample()
    ensures ImageId("up/v1/cat.png") == "cat"
  {
    var segs := ["up", "v1", "cat.png"];
    assert Join(segs, '/') == "up/v1/cat.png";
    JoinSplit(segs, '/');
    var names := ["cat", "png"];
    assert Join(names, '.') == "cat.png";
    JoinSplit(names, '.');
  }
}
