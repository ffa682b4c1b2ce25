/**
 * The manifest: `missing_files.txt` in the source folder holds every missing
 * path on a line of its own, each followed by "\n", in list order.
 */
module ReportWriter {
  import opened Paths

  /** The text produced by `f.write(line + "\n")` for each line in turn. */
  function Manifest(lines: seq<string>): (t: string)
    ensures t == "" <==> lines == []
    ensures |t| >= |lines|
    ensures lines != [] ==> |t| > |lines[0]| && t[..|lines[0]|] == lines[0] && t[|t| - 1] == '\n'
    decreases |lines|
  {
    if lines == [] then "" else lines[0] + "\n" + Manifest(lines[1..])
  }

  /** The strings Python writes for a list of paths. */
  function RenderAll(paths: seq<Path>): seq<string> {
    seq(|paths|, i requires 0 <= i < |paths| => Render(paths[i]))
  }

  /** The position of the first `c` in `s`. */
  function IndexOf(s: string, c: char): (i: nat)
    requires c in s
    ensures i < |s| && s[i] == c && c !in s[..i]
  {
    if s[0] == c then 0 else 1 + IndexOf(s[1..], c)
  }

  /** The first `c` is at `k` when `s[k]` is `c` and no earlier character is. */
  lemma {:induction false} IndexOfAt(s: string, c: char, k: nat)
    requires k < |s| && s[k] == c && c !in s[..k]
    ensures IndexOf(s, c) == k
    decreases k
  {
    if k > 0 {
      assert s[0] == s[..k][0];
      assert s[1..][..k - 1] == s[1..k];
      assert forall j :: 1 <= j < k ==> s[1..k][j - 1] == s[..k][j];
      IndexOfAt(s[1..], c, k - 1);
    }
  }

  /** Reading a text back as lines: each "\n" ends a line; a last line without one still counts. */
  function Lines(text: string): seq<string>
    decreases |text|
  {
    if text == [] then []
    else if '\n' !in text then [text]
    else
      var i := IndexOf(text, '\n');
      [text[..i]] + Lines(text[i + 1..])
  }

  /** How many times `c` occurs in `s`. */
  function Count(s: string, c: char): nat {
    if s == [] then 0 else (if s[0] == c then 1 else 0) + Count(s[1..], c)
  }

  /** Writing one more line appends it, with its "\n", to the text written so far. */
  lemma {:induction false} ManifestAppend(lines: seq<string>, line: string)
    ensures Manifest(lines + [line]) == Manifest(lines) + line + "\n"
    decreases |lines|
  {
    if lines != [] {
      assert (lines + [line])[1..] == lines[1..] + [line];
      ManifestAppend(lines[1..], line);
    }
  }

  /**
   * The manifest lists exactly the given lines, in order: read back line by
   * line it gives the list again, provided no line has a "\n" of its own.
   */
  lemma {:induction false} ManifestRoundTrip(lines: seq<string>)
    requires forall l <- lines :: '\n' !in l
    ensures Lines(Manifest(lines)) == lines
    decreases |lines|
  {
    if lines != [] {
      var text := Manifest(lines);
      var rest := Manifest(lines[1..]);
      assert text == lines[0] + "\n" + rest;
      assert text[|lines[0]|] == '\n';
      assert text[..|lines[0]|] == lines[0];
      IndexOfAt(text, '\n', |lines[0]|);
      assert text[|lines[0]| + 1..] == rest;
      assert forall l <- lines[1..] :: l in lines;
      ManifestRoundTrip(lines[1..]);
    }
  }

  lemma {:induction false} CountAppend(a: string, b: string, c: char)
    ensures Count(a + b, c) == Count(a, c) + Count(b, c)
    decreases |a|
  {
    if a != [] {
      assert (a + b)[1..] == a[1..] + b;
      CountAppend(a[1..], b, c);
    } else {
      assert a + b == b;
    }
  }

  lemma {:induction false} CountAbsent(s: string, c: char)
    requires c !in s
    ensures Count(s, c) == 0
    decreases |s|
  {
    if s != [] {
      assert forall x <- s[1..] :: x in s;
      CountAbsent(s[1..], c);
    }
  }

  /** The manifest has one "\n" per listed line. */
  lemma {:induction false} ManifestLineCount(lines: seq<string>)
    requires forall l <- lines :: '\n' !in l
    ensures Count(Manifest(lines), '\n') == |lines|
    decreases |lines|
  {
    if lines != [] {
      assert forall l <- lines[1..] :: l in lines;
      ManifestLineCount(lines[1..]);
      CountAbsent(lines[0], '\n');
      CountAppend(lines[0], "\n", '\n');
      CountAppend(lines[0] + "\n", Manifest(lines[1..]), '\n');
    }
  }

  /**
   * For paths whose names hold no line break, line i of the manifest is
   * path i of the list, and there are as many lines as paths.
   */
  lemma ManifestListsPaths(paths: seq<Path>)
    requires forall p <- paths, n <- p :: '\n' !in n
    ensures |Lines(Manifest(RenderAll(paths)))| == |paths|
    ensures forall i :: 0 <= i < |paths| ==> Lines(Manifest(RenderAll(paths)))[i] == Render(paths[i])
  {
    var lines := RenderAll(paths);
    forall l <- lines
      ensures '\n' !in l
    {
      var i :| 0 <= i < |lines| && lines[i] == l;
      RenderSingleLine(paths[i]);
    }
    ManifestRoundTrip(lines);
  }

  /** Writing path i after paths 0 .. i-1 extends the text by its line. */
  lemma ManifestPrefix(paths: seq<Path>, i: nat)
    requires i < |paths|
    ensures Manifest(RenderAll(paths[..i + 1])) == Manifest(RenderAll(paths[..i])) + Render(paths[i]) + "\n"
  {
    ManifestAppend(RenderAll(paths[..i]), Render(paths[i]));
    assert RenderAll(paths[..i + 1]) == RenderAll(paths[..i]) + [Render(paths[i])];
  }
}
