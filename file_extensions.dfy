/**
 * `FileExtensions.getFileExtension`, on the file's name: the last piece of
 * the name split at '.', lower-cased.
 */
module FileExtensions {
  import opened JavaStrings

  /**
   * A non-empty name made of dots only splits into nothing, and indexing the
   * last piece of an empty array throws; every other name has an extension.
   */
  predicate HasSplitPiece(name: string) {
    name == [] || exists i :: 0 <= i < |name| && name[i] != '.'
  }

  function GetFileExtension(name: string): (r: string)
    requires HasSplitPiece(name)
    ensures '.' !in r
    ensures '.' !in name ==> r == ToLower(name)
    ensures '.' in name ==> r != []
  {
    var pieces := Split(name, '.');
    SplitEmptyIff(name, '.');
    var last := pieces[|pieces| - 1];
    assert '.' !in last;
    ToLowerKeepsDots(last);
    ToLower(last)
  }

  /** Lower-casing neither adds nor removes a dot. */
  lemma ToLowerKeepsDots(s: string)
    ensures '.' in ToLower(s) <==> '.' in s
  {
    var t := ToLower(s);
    if '.' in t {
      var i :| 0 <= i < |t| && t[i] == '.';
      assert s[i] == '.';
    }
    if '.' in s {
      var i :| 0 <= i < |s| && s[i] == '.';
      assert t[i] == '.';
    }
  }

  /**
   * The extension is the last non-empty piece: a name `pre + ext + dots`,
   * where `pre` is empty or ends in a dot, `ext` is a non-empty piece without
   * dots and `dots` are trailing dots only, has extension `ext`, lower-cased.
   */
  /** The pieces of `pre + ext + dots`: those of `pre`'s front, then `ext`, then empty ones. */
  lemma SegmentsAroundExtension(pre: string, ext: string, dots: string) returns (front: seq<string>, empties: seq<string>)
    requires pre == [] || pre[|pre| - 1] == '.'
    requires ext != [] && '.' !in ext
    requires forall i :: 0 <= i < |dots| ==> dots[i] == '.'
    ensures Segments(pre + ext + dots, '.') == front + [ext] + empties
    ensures forall j :: 0 <= j < |empties| ==> empties[j] == []
  {
    var name := pre + ext + dots;
    SegmentsWithoutSeparator(ext, '.');
    var tail := Segments(ext + dots, '.');
    if dots == [] {
      assert ext + dots == ext;
      empties := [];
      assert tail == [ext] + empties;
    } else {
      var rest := dots[1..];
      assert ext + dots == ext + ['.'] + rest;
      SegmentsAtSeparator(ext, rest, '.');
      empties := Segments(rest, '.');
      SeparatorsOnlyGiveEmptySegments(rest, '.');
      assert tail == [ext] + empties;
    }
    if pre == [] {
      assert name == ext + dots;
      front := [];
    } else {
      var p := pre[..|pre| - 1];
      assert name == p + ['.'] + (ext + dots);
      SegmentsAtSeparator(p, ext + dots, '.');
      front := Segments(p, '.');
    }
  }

  lemma ExtensionIsLastPiece(pre: string, ext: string, dots: string)
    requires pre == [] || pre[|pre| - 1] == '.'
    requires ext != [] && '.' !in ext
    requires forall i :: 0 <= i < |dots| ==> dots[i] == '.'
    ensures HasSplitPiece(pre + ext + dots)
    ensures GetFileExtension(pre + ext + dots) == ToLower(ext)
  {
    var name := pre + ext + dots;
    assert name[|pre|] == ext[0];
    var front, empties := SegmentsAroundExtension(pre, ext, dots);
    assert dots != [] ==> name[|pre| + |ext|] == '.';
    if '.' in name {
      DropTrailingEmptyTail(front + [ext], empties);
      assert DropTrailingEmpty(front + [ext]) == front + [ext];
      assert Split(name, '.') == front + [ext];
    } else {
      assert pre == [] && dots == [];
      assert name == ext;
    }
  }

  /** A name with a character other than a dot: one that has an extension of its own. */
  predicate HasNonDot(name: string) {
    exists i :: 0 <= i < |name| && name[i] != '.'
  }

  /** Pieces in front of a list that keeps a non-empty piece are never dropped. */
  lemma {:induction false} DropTrailingEmptyKeepsFront(front: seq<string>, xs: seq<string>)
    requires DropTrailingEmpty(xs) != []
    ensures DropTrailingEmpty(front + xs) == front + DropTrailingEmpty(xs)
    decreases |xs|
  {
    assert xs != [];
    var whole := front + xs;
    assert whole[|whole| - 1] == xs[|xs| - 1];
    if xs[|xs| - 1] == [] {
      assert whole[..|whole| - 1] == front + xs[..|xs| - 1];
      DropTrailingEmptyKeepsFront(front, xs[..|xs| - 1]);
    }
  }

  /** A name with a character other than a dot splits into its segments, trailing empties dropped, and keeps a piece. */
  lemma SplitOfNonDot(name: string)
    requires HasNonDot(name)
    ensures Split(name, '.') == DropTrailingEmpty(Segments(name, '.'))
    ensures Split(name, '.') != []
  {
    SplitEmptyIff(name, '.');
    if '.' !in name {
      SegmentsWithoutSeparator(name, '.');
    }
  }

  /** The extension of a name with a non-dot character is its last split piece, lower-cased. */
  lemma ExtensionOfSplit(name: string)
    requires HasNonDot(name)
    ensures HasSplitPiece(name)
    ensures var pieces := Split(name, '.');
      pieces != [] && GetFileExtension(name) == ToLower(pieces[|pieces| - 1])
  {
    SplitOfNonDot(name);
  }

  /**
   * Whatever stands before a dot does not matter: `pre + "." + name` has the
   * extension of `name` ("a.tar.XML" has that of "XML", "xml").
   */
  lemma InnerDotsSkipped(pre: string, name: string)
    requires HasNonDot(name)
    ensures HasSplitPiece(pre + "." + name)
    ensures GetFileExtension(pre + "." + name) == GetFileExtension(name)
  {
    var whole := pre + "." + name;
    var i :| 0 <= i < |name| && name[i] != '.';
    assert whole[|pre| + 1 + i] == name[i];
    SegmentsAtSeparator(pre, name, '.');
    assert whole == pre + ['.'] + name;
    SplitOfNonDot(name);
    SplitOfNonDot(whole);
    DropTrailingEmptyKeepsFront(Segments(pre, '.'), Segments(name, '.'));
    ExtensionOfSplit(whole);
    ExtensionOfSplit(name);
  }

  /** A trailing dot is ignored: `name + "."` has the extension of `name` ("map.xml." that of "map.xml"). */
  lemma TrailingDotIgnored(name: string)
    requires HasNonDot(name)
    ensures HasSplitPiece(name + ".")
    ensures GetFileExtension(name + ".") == GetFileExtension(name)
  {
    var whole := name + ".";
    var i :| 0 <= i < |name| && name[i] != '.';
    assert whole[i] == name[i];
    assert whole == name + ['.'] + [];
    SegmentsAtSeparator(name, [], '.');
    SplitOfNonDot(name);
    SplitOfNonDot(whole);
    DropTrailingEmptyTail(Segments(name, '.'), [[]]);
    ExtensionOfSplit(whole);
    ExtensionOfSplit(name);
  }

  /** A leading dot is skipped: `"." + name` has the extension of `name` (".xml" that of "xml"). */
  lemma LeadingDotSkipped(name: string)
    requires HasNonDot(name)
    ensures HasSplitPiece("." + name)
    ensures GetFileExtension("." + name) == GetFileExtension(name)
  {
    InnerDotsSkipped("", name);
    assert "" + "." + name == "." + name;
  }

  /** Examples, for the reader: the empty name has the empty extension; a name made of dots only has none. */
  lemma EmptyAndDotOnlyNames()
    ensures GetFileExtension("") == ""
    ensures !HasSplitPiece("..")
  {
  }
}
