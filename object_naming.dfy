/**
 * How a photo's storage object name is derived from the chosen file's name:
 * the extension is `name.split('.').pop()` and the object name is
 * `uuid + "." + extension`.
 */
module ObjectNaming {

  /** JavaScript's `s.split(sep)` for a one-character separator. */
  function Split(s: string, sep: char): (parts: seq<string>)
    ensures |parts| >= 1
  {
    if |s| == 0 then [""]
    else
      var rest := Split(s[1..], sep);
      if s[0] == sep then [""] + rest
      else [[s[0]] + rest[0]] + rest[1..]
  }

  /** No piece contains the separator, and there is one piece exactly when the string has no separator. */
  lemma {:induction false} SplitPieces(s: string, sep: char)
    ensures forall i :: 0 <= i < |Split(s, sep)| ==> sep !in Split(s, sep)[i]
    ensures |Split(s, sep)| == 1 <==> sep !in s
  {
    if |s| > 0 {
      SplitPieces(s[1..], sep);
      var rest := Split(s[1..], sep);
      var parts := Split(s, sep);
      if s[0] != sep {
        assert parts[0] == [s[0]] + rest[0];
        forall i | 1 <= i < |parts| ensures sep !in parts[i] {
          assert parts[i] == rest[i];
        }
      } else {
        forall i | 1 <= i < |parts| ensures sep !in parts[i] {
          assert parts[i] == rest[i - 1];
        }
      }
    }
  }

  /** JavaScript's `parts.join(sep)`, the inverse of `Split`. */
  function Join(parts: seq<string>, sep: char): string
    requires |parts| >= 1
  {
    if |parts| == 1 then parts[0] else parts[0] + [sep] + Join(parts[1..], sep)
  }

  /** `split` followed by `join` gives back the original string. */
  lemma {:induction false} JoinSplit(s: string, sep: char)
    ensures Join(Split(s, sep), sep) == s
  {
    if |s| > 0 {
      var rest := Split(s[1..], sep);
      JoinSplit(s[1..], sep);
      if s[0] == sep {
        assert Split(s, sep)[1..] == rest;
        assert s == [sep] + s[1..];
      } else if |rest| == 1 {
        assert s == [s[0]] + s[1..];
      } else {
        var parts := Split(s, sep);
        assert parts[1..] == rest[1..];
        assert Join(rest, sep) == rest[0] + [sep] + Join(rest[1..], sep);
        assert s == [s[0]] + s[1..];
      }
    }
  }

  /** `join` followed by `split` gives back the pieces, when no piece contains the separator. */
  lemma {:induction false} SplitJoin(parts: seq<string>, sep: char)
    requires |parts| >= 1
    requires forall i :: 0 <= i < |parts| ==> sep !in parts[i]
    ensures Split(Join(parts, sep), sep) == parts
  {
    if |parts| == 1 {
      SplitNoSeparator(parts[0], sep);
    } else {
      SplitJoin(parts[1..], sep);
      SplitSeparatorSuffix(parts[0], Join(parts[1..], sep), sep);
      assert [parts[0]] + parts[1..] == parts;
    }
  }

  /** A string with no separator splits into itself alone. */
  lemma {:induction false} SplitNoSeparator(s: string, sep: char)
    requires sep !in s
    ensures Split(s, sep) == [s]
  {
    if |s| > 0 {
      SplitNoSeparator(s[1..], sep);
      assert [s[0]] + s[1..] == s;
    }
  }

  /** Splitting `a + sep + b`, with no separator in `a`, gives `a` followed by the pieces of `b`. */
  lemma {:induction false} SplitSeparatorSuffix(a: string, b: string, sep: char)
    requires sep !in a
    ensures Split(a + [sep] + b, sep) == [a] + Split(b, sep)
  {
    if |a| == 0 {
      assert a + [sep] + b == [sep] + b;
      assert ([sep] + b)[1..] == b;
    } else {
      SplitSeparatorSuffix(a[1..], b, sep);
      var s := a + [sep] + b;
      assert s[0] == a[0];
      assert s[1..] == a[1..] + [sep] + b;
      assert [a[0]] + a[1..] == a;
    }
  }

  /** The last element of a non-empty sequence (`Array.prototype.pop`'s result). */
  function Last<T>(xs: seq<T>): (x: T)
    requires |xs| >= 1
    ensures xs == xs[..|xs| - 1] + [x]
  {
    xs[|xs| - 1]
  }

  /**
   * The file extension as `name.split('.').pop()` computes it: the text after
   * the last dot, or the whole name when there is no dot.
   */
  function Extension(name: string): (e: string)
    ensures '.' !in e
    ensures |e| <= |name| && name[|name| - |e|..] == e
    ensures '.' !in name ==> e == name
    ensures '.' in name ==> |e| < |name| && name[|name| - |e| - 1] == '.'
  {
    LastPieceIsTextAfterLastSeparator(name, '.');
    Last(Split(name, '.'))
  }

  /** The last piece of a non-empty string is the whole string or the last piece of its tail. */
  lemma LastPieceStep(s: string, sep: char)
    requires |s| > 0
    ensures Last(Split(s, sep)) ==
      if s[0] != sep && sep !in s[1..] then s else Last(Split(s[1..], sep))
  {
    var rest := Split(s[1..], sep);
    if s[0] != sep && sep !in s[1..] {
      SplitNoSeparator(s[1..], sep);
      assert Split(s, sep) == [[s[0]] + s[1..]];
      assert [s[0]] + s[1..] == s;
    } else if s[0] != sep {
      SplitPieces(s[1..], sep);
      assert Split(s, sep) == [[s[0]] + rest[0]] + rest[1..];
    } else {
      assert Split(s, sep) == [""] + rest;
    }
  }

  /**
   * The last piece of a split is the text after the last separator: a
   * separator-free suffix of the string that is either the whole string (no
   * separator at all) or preceded by a separator.
   */
  lemma {:induction false} LastPieceIsTextAfterLastSeparator(s: string, sep: char)
    ensures var e := Last(Split(s, sep));
      && |e| <= |s| && s[|s| - |e|..] == e
      && sep !in e
      && (sep !in s ==> e == s)
      && (sep in s ==> |e| < |s| && s[|s| - |e| - 1] == sep)
  {
    if |s| > 0 {
      var t := s[1..];
      assert s == [s[0]] + t;
      LastPieceStep(s, sep);
      if s[0] == sep || sep in t {
        LastPieceIsTextAfterLastSeparator(t, sep);
        var e := Last(Split(t, sep));
        assert Last(Split(s, sep)) == e;
        assert s[|s| - |e|..] == t[|t| - |e|..];
        assert sep in s;
        if sep in t {
          assert s[|s| - |e| - 1] == t[|t| - |e| - 1];
        } else {
          assert e == t && s[|s| - |e| - 1] == s[0];
        }
      } else {
        assert sep !in s;
      }
    }
  }

  /** The name under which a chosen file is uploaded (the template `${uuid}.${ext}`). */
  function ObjectName(uuid: string, fileName: string): (objectName: string)
    ensures |objectName| > |uuid| && objectName[..|uuid|] == uuid && objectName[|uuid|] == '.'
    ensures objectName[|uuid| + 1..] == Extension(fileName)
  {
    uuid + "." + Extension(fileName)
  }

  /** The object name keeps the original file's extension. */
  lemma {:induction false} ObjectNameKeepsExtension(uuid: string, fileName: string)
    ensures Extension(ObjectName(uuid, fileName)) == Extension(fileName)
  {
    var ext := Extension(fileName);
    var obj := ObjectName(uuid, fileName);
    var e := Extension(obj);
    assert obj[|uuid|] == '.';
    assert '.' in obj;
  }

  /** A file name without a dot is its own extension, so the object name ends in the whole name. */
  lemma NoDotExtension(fileName: string)
    requires '.' !in fileName
    ensures Extension(fileName) == fileName
  {
    SplitNoSeparator(fileName, '.');
  }
}
