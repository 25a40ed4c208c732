/**
  The parts of the script's top level that compute values rather than call
  external tools: cleaning the selected-file list, splitting the form the
  user filled in, and applying the width and height overrides to the
  optimal size.
 */
module Driver {
  import opened Wrappers
  import opened PyText

  /** `[f.strip() for f in pieces if f.strip() != ""]`. */
  function StripNonBlank(pieces: seq<string>): (r: seq<string>)
    ensures |r| <= |pieces|
    ensures forall i | 0 <= i < |r| :: r[i] != "" && Stripped(StrSpaces, r[i])
  {
    if pieces == [] then []
    else
      var f := Strip(StrSpaces, pieces[0]);
      (if f != "" then [f] else []) + StripNonBlank(pieces[1..])
  }

  /** One piece gives its stripped text, or nothing when that is blank. */
  lemma StripNonBlankOne(piece: string)
    ensures StripNonBlank([piece]) == if Strip(StrSpaces, piece) != "" then [Strip(StrSpaces, piece)] else []
  {
    assert [piece][1..] == [];
  }

  /** The comprehension works piece by piece: cleaning a concatenation concatenates the cleaned parts, in order. */
  lemma {:induction false} StripNonBlankConcat(a: seq<string>, b: seq<string>)
    ensures StripNonBlank(a + b) == StripNonBlank(a) + StripNonBlank(b)
  {
    if a == [] {
      assert a + b == b;
    } else {
      assert (a + b)[0] == a[0];
      assert (a + b)[1..] == a[1..] + b;
      StripNonBlankConcat(a[1..], b);
    }
  }

  /** Blank lines contribute no entries. */
  lemma {:induction false} StripNonBlankBlank(lines: seq<string>)
    requires forall j | 0 <= j < |lines| :: AllSpace(StrSpaces, lines[j])
    ensures StripNonBlank(lines) == []
  {
    if lines != [] {
      assert lines[0] + "" + [] == lines[0];
      StripUnique(StrSpaces, lines[0], "", []);
      StripNonBlankBlank(lines[1..]);
    }
  }

  /** The list of selected files, from the newline-separated selection (before sorting): every path is non-blank, has no surrounding whitespace and no newline. */
  function CleanFileList(selected: string): (r: seq<string>)
    ensures forall i | 0 <= i < |r| :: r[i] != "" && Stripped(StrSpaces, r[i]) && '\n' !in r[i]
  {
    StripNonBlankAvoids(SplitOn(selected, '\n'), '\n');
    StripNonBlank(SplitOn(selected, '\n'))
  }

  /** A character none of the pieces holds is in none of the cleaned entries. */
  lemma {:induction false} StripNonBlankAvoids(pieces: seq<string>, c: char)
    requires forall j | 0 <= j < |pieces| :: c !in pieces[j]
    ensures forall i | 0 <= i < |StripNonBlank(pieces)| :: c !in StripNonBlank(pieces)[i]
  {
    if pieces != [] {
      StripNonBlankAvoids(pieces[1..], c);
      var pre, post := StripDecomposes(StrSpaces, pieces[0]);
      var f := Strip(StrSpaces, pieces[0]);
      assert pieces[0] == pre + f + post;
      assert forall i | 0 <= i < |f| :: f[i] == pieces[0][|pre| + i];
      assert c !in f;
    }
  }

  /** Paths that already are non-blank, stripped and newline-free survive a round trip through the selection text. */
  lemma CleanFileListRoundTrip(paths: seq<string>)
    requires forall i | 0 <= i < |paths| :: paths[i] != "" && Stripped(StrSpaces, paths[i]) && '\n' !in paths[i]
    ensures CleanFileList(JoinWith(paths, '\n')) == paths
  {
    if paths == [] {
      assert SplitOn("", '\n') == [""];
      assert StripNonBlank([""]) == StripNonBlank([]);
    } else {
      SplitJoin(paths, '\n');
      StripNonBlankKeeps(paths);
    }
  }

  lemma {:induction false} StripNonBlankKeeps(paths: seq<string>)
    requires forall i | 0 <= i < |paths| :: paths[i] != "" && Stripped(StrSpaces, paths[i])
    ensures StripNonBlank(paths) == paths
  {
    if paths != [] {
      StripNonBlankKeeps(paths[1..]);
      assert [] + paths[0] + [] == paths[0];
      StripUnique(StrSpaces, [], paths[0], []);
      assert paths == [paths[0]] + paths[1..];
    }
  }

  /**
    One file of a selection as it may be written: the blank lines `gap`
    before it, then one line holding `path` with whitespace `pre` and
    `post` around it.
   */
  datatype PaddedEntry = PaddedEntry(gap: seq<string>, pre: string, path: string, post: string)

  predicate WellPadded(e: PaddedEntry) {
    && (forall j | 0 <= j < |e.gap| :: AllSpace(StrSpaces, e.gap[j]) && '\n' !in e.gap[j])
    && AllSpace(StrSpaces, e.pre) && AllSpace(StrSpaces, e.post) && '\n' !in e.pre && '\n' !in e.post
    && e.path != "" && Stripped(StrSpaces, e.path) && '\n' !in e.path
  }

  /** The lines of a selection, entry after entry. */
  function EntryLines(entries: seq<PaddedEntry>): seq<string> {
    if entries == [] then []
    else entries[0].gap + [entries[0].pre + entries[0].path + entries[0].post] + EntryLines(entries[1..])
  }

  function EntryPaths(entries: seq<PaddedEntry>): seq<string> {
    if entries == [] then [] else [entries[0].path] + EntryPaths(entries[1..])
  }

  lemma {:induction false} EntryLinesNoNewline(entries: seq<PaddedEntry>)
    requires forall i | 0 <= i < |entries| :: WellPadded(entries[i])
    ensures forall j | 0 <= j < |EntryLines(entries)| :: '\n' !in EntryLines(entries)[j]
  {
    if entries != [] {
      var e := entries[0];
      var line := e.pre + e.path + e.post;
      var rest := EntryLines(entries[1..]);
      EntryLinesNoNewline(entries[1..]);
      assert '\n' !in line;
      var lines := e.gap + [line] + rest;
      forall j | 0 <= j < |lines| ensures '\n' !in lines[j] {
        if j < |e.gap| {
          assert lines[j] == e.gap[j];
        } else if j == |e.gap| {
          assert lines[j] == line;
        } else {
          assert lines[j] == rest[j - |e.gap| - 1];
        }
      }
    }
  }

  lemma {:induction false} EntryLinesClean(entries: seq<PaddedEntry>)
    requires forall i | 0 <= i < |entries| :: WellPadded(entries[i])
    ensures StripNonBlank(EntryLines(entries)) == EntryPaths(entries)
  {
    if entries != [] {
      var e := entries[0];
      var line := e.pre + e.path + e.post;
      var rest := EntryLines(entries[1..]);
      EntryLinesClean(entries[1..]);
      StripNonBlankConcat(e.gap + [line], rest);
      StripNonBlankConcat(e.gap, [line]);
      StripNonBlankBlank(e.gap);
      StripUnique(StrSpaces, e.pre, e.path, e.post);
      StripNonBlankOne(line);
      assert StripNonBlank(e.gap + [line]) == [e.path];
    }
  }

  /** Cleaning newline-free lines joined by newlines cleans the lines themselves. */
  lemma CleanFileListOfLines(lines: seq<string>)
    requires forall j | 0 <= j < |lines| :: '\n' !in lines[j]
    ensures CleanFileList(JoinWith(lines, '\n')) == StripNonBlank(lines)
  {
    if lines == [] {
      assert SplitOn("", '\n') == [""];
      assert StripNonBlank([""]) == StripNonBlank([]);
    } else {
      SplitJoin(lines, '\n');
    }
  }

  lemma LinesNoNewline(entries: seq<PaddedEntry>, tail: seq<string>)
    requires forall i | 0 <= i < |entries| :: WellPadded(entries[i])
    requires forall j | 0 <= j < |tail| :: '\n' !in tail[j]
    ensures forall j | 0 <= j < |EntryLines(entries) + tail| :: '\n' !in (EntryLines(entries) + tail)[j]
  {
    EntryLinesNoNewline(entries);
  }

  /**
    The selection may pad each path with whitespace and put blank lines
    before, between and after the paths: the list holds exactly the paths,
    without their padding, in their order.
   */
  lemma CleanFileListPadded(entries: seq<PaddedEntry>, tail: seq<string>)
    requires forall i | 0 <= i < |entries| :: WellPadded(entries[i])
    requires forall j | 0 <= j < |tail| :: AllSpace(StrSpaces, tail[j]) && '\n' !in tail[j]
    ensures CleanFileList(JoinWith(EntryLines(entries) + tail, '\n')) == EntryPaths(entries)
  {
    var lines := EntryLines(entries) + tail;
    LinesNoNewline(entries, tail);
    CleanFileListOfLines(lines);
    EntryLinesClean(entries);
    StripNonBlankBlank(tail);
    StripNonBlankConcat(EntryLines(entries), tail);
    assert StripNonBlank(lines) == EntryPaths(entries) + [];
  }

  /** `out_file_name, w, h, *_ = out.split("|")`; `None` when the record has fewer than two `|`, so that the unpacking raises. */
  function FormFields(out: string): (r: Option<(string, string, string)>)
    ensures r.Some? <==> multiset(out)['|'] >= 2
    ensures r.Some? ==> '|' !in r.value.0 && '|' !in r.value.1 && '|' !in r.value.2
  {
    SplitOnCount(out, '|');
    var fields := SplitOn(out, '|');
    if |fields| < 3 then None else Some((fields[0], fields[1], fields[2]))
  }

  /** A form record of three or more `|`-free fields unpacks to its first three fields, whatever follows. */
  lemma FormFieldsRoundTrip(fields: seq<string>)
    requires |fields| >= 3
    requires forall i | 0 <= i < |fields| :: '|' !in fields[i]
    ensures FormFields(JoinWith(fields, '|')) == Some((fields[0], fields[1], fields[2]))
  {
    SplitJoin(fields, '|');
  }

  /** A record with at most one `|` cannot be unpacked into three names. */
  lemma FormFieldsTooShort(a: string, b: string)
    requires '|' !in a && '|' !in b
    ensures FormFields(a) == None
    ensures FormFields(a + "|" + b) == None
  {
    SplitJoin([a], '|');
    SplitJoin([a, b], '|');
    assert JoinWith([a, b], '|') == a + "|" + b;
  }

  /** The output name: the stripped field, or `fallback` (the source's random name) when that is blank. */
  function OutputName(field: string, fallback: string): (r: string)
    ensures Strip(StrSpaces, field) != "" ==> r == Strip(StrSpaces, field)
    ensures Strip(StrSpaces, field) == "" ==> r == fallback
  {
    var name := Strip(StrSpaces, field);
    if name == "" then fallback else name
  }

  /** A name typed with whitespace around it is kept without that whitespace; a blank field takes the fallback. */
  lemma OutputNamePadded(p: string, name: string, q: string, fallback: string)
    requires AllSpace(StrSpaces, p) && AllSpace(StrSpaces, q)
    requires Stripped(StrSpaces, name)
    ensures OutputName(p + name + q, fallback) == if name == "" then fallback else name
  {
    StripUnique(StrSpaces, p, name, q);
  }

  /**
    The override step on `optimal_size`, a two-element list: each of `w` and
    `h` that `int` accepts replaces its slot; one that `int` rejects leaves
    its slot as it was.
   */
  method ApplyOverrides(size: array<int>, w: string, h: string)
    requires size.Length == 2
    modifies size
    ensures size[0] == ParseInt(w).GetOr(old(size[0]))
    ensures size[1] == ParseInt(h).GetOr(old(size[1]))
  {
    var pw := ParseInt(w);
    if pw.Some? {
      size[0] := pw.value;
    }
    var ph := ParseInt(h);
    if ph.Some? {
      size[1] := ph.value;
    }
  }

  /** `"640"` replaces a default of 800, with or without the newline the form ends with. */
  lemma OverrideAcceptsNumber()
    ensures ParseInt("640").GetOr(800) == 640
    ensures ParseInt(" 640\n").GetOr(800) == 640
  {
    assert DecimalString(640) == "640";
    ParseIntRoundTrip(640);
    assert " 640\n" == " " + "640" + "\n";
    ParseIntIgnoresPadding(" ", "640", "\n");
  }

  /** `"abc"`, an empty field and a blank one keep the default of 800. */
  lemma OverrideKeepsDefault()
    ensures ParseInt("abc").GetOr(800) == 800
    ensures ParseInt("").GetOr(800) == 800
    ensures ParseInt("  ").GetOr(800) == 800
  {
    ParseIntRejectsBlank("");
    ParseIntRejectsBlank("  ");
    assert [] + "abc" + [] == "abc";
    StripUnique(IntSpaces, [], "abc", []);
    assert !WellFormedDigits("abc");
  }
}
