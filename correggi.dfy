/** The table-of-contents fixer of the thesis text: every line of the file
    is copied, and a vertical-space line is written before each line whose
    chapter key differs from the previous line's. The regular expression
    that finds the `numberline{...}` group is a given function `extract`
    from a line to its first group, if any. */
module Correggi {
  import opened Options

  /** The line written between two chapters. */
  const Separator: string := "\\addvspace {10\\p@ }\n"

  /** The initial value of the previous key in the script. */
  const Sentinel: string := "azz"

  /** `s.split('.')[0]`: the text before the first '.', or all of `s`
      when it has none. */
  function BeforeDot(s: string): (r: string)
    ensures |r| <= |s| && r == s[..|r|] && '.' !in r
    ensures |r| < |s| ==> s[|r|] == '.'
  {
    if s == [] || s[0] == '.' then ""
    else
      var t := BeforeDot(s[1..]);
      assert [s[0]] + t == s[..|t| + 1];
      [s[0]] + t
  }

  /** The chapter key of a line: the text before the first '.' of its first
      group; a line without one has no key (the script raises there). */
  function ChapterKey(extract: string -> Option<string>, line: string): (r: Option<string>)
    ensures r.Some? <==> extract(line).Some?
    ensures r.Some? ==> r.value == BeforeDot(extract(line).value)
  {
    match extract(line)
    case None => None
    case Some(group) => Some(BeforeDot(group))
  }

  /** The keys of lines that all have one. */
  function KeysOf(extract: string -> Option<string>, lines: seq<string>): (r: seq<string>)
    requires forall j :: 0 <= j < |lines| ==> extract(lines[j]).Some?
    ensures |r| == |lines|
    ensures forall j :: 0 <= j < |lines| ==> Some(r[j]) == ChapterKey(extract, lines[j])
  {
    seq(|lines|, j requires 0 <= j < |lines| => BeforeDot(extract(lines[j]).value))
  }

  /** What the script writes, told apart: a copied line or a separator. */
  datatype Written = Line(text: string) | Space

  /** The text of what was written. */
  function Render(w: seq<Written>): (r: seq<string>)
    ensures |r| == |w|
  {
    if w == [] then [] else Render(w[..|w| - 1]) + [if w[|w| - 1].Space? then Separator else w[|w| - 1].text]
  }

  lemma {:induction false} RenderAppend(a: seq<Written>, b: seq<Written>)
    ensures Render(a + b) == Render(a) + Render(b)
    decreases |b|
  {
    if b == [] {
      assert a + b == a;
    } else {
      RenderAppend(a, b[..|b| - 1]);
      assert (a + b)[..|a + b| - 1] == a + b[..|b| - 1];
    }
  }

  /** Whether a separator goes before line i: the previous line's key is not
      the sentinel (when there is one) and differs from line i's key. */
  predicate Separates(keys: seq<string>, sentinel: Option<string>, i: int)
    requires 0 <= i < |keys|
  {
    0 < i && Some(keys[i - 1]) != sentinel && keys[i - 1] != keys[i]
  }

  /** The separator written before line i, if any. */
  function SepBefore(keys: seq<string>, sentinel: Option<string>, i: int): (r: seq<Written>)
    requires 0 <= i < |keys|
    ensures r == [] || r == [Space]
  {
    if Separates(keys, sentinel, i) then [Space] else []
  }

  /** What the loop writes for lines with the given keys: for each line, a
      separator when Separates says so, then the line itself. */
  function Entries(lines: seq<string>, keys: seq<string>, sentinel: Option<string>): (r: seq<Written>)
    requires |lines| == |keys|
    decreases |lines|
  {
    if lines == [] then []
    else
      var n := |lines| - 1;
      Entries(lines[..n], keys[..n], sentinel) + SepBefore(keys, sentinel, n) + [Line(lines[n])]
  }

  /** The copied lines of what was written, in order. */
  function Lines(w: seq<Written>): seq<string>
  {
    if w == [] then [] else Lines(w[..|w| - 1]) + (if w[|w| - 1].Line? then [w[|w| - 1].text] else [])
  }

  /** The number of separators written. */
  function Spaces(w: seq<Written>): nat
  {
    if w == [] then 0 else Spaces(w[..|w| - 1]) + (if w[|w| - 1].Space? then 1 else 0)
  }

  /** The number of lines before line n that Separates marks. */
  function Changes(keys: seq<string>, sentinel: Option<string>, n: nat): nat
    requires n <= |keys|
  {
    if n == 0 then 0 else Changes(keys, sentinel, n - 1) + (if Separates(keys, sentinel, n - 1) then 1 else 0)
  }

  lemma {:induction false} LinesAppend(a: seq<Written>, b: seq<Written>)
    ensures Lines(a + b) == Lines(a) + Lines(b)
    ensures Spaces(a + b) == Spaces(a) + Spaces(b)
    decreases |b|
  {
    if b == [] {
      assert a + b == a;
    } else {
      LinesAppend(a, b[..|b| - 1]);
      assert (a + b)[..|a + b| - 1] == a + b[..|b| - 1];
    }
  }

  /** Entries of a prefix of the lines are a prefix of the entries: the
      keys after line n do not change what is written up to it. */
  lemma EntriesPrefix(lines: seq<string>, keys: seq<string>, sentinel: Option<string>, n: nat)
    requires |lines| == |keys| && 0 < n <= |lines|
    ensures Entries(lines[..n], keys[..n], sentinel)
      == Entries(lines[..n - 1], keys[..n - 1], sentinel)
         + SepBefore(keys, sentinel, n - 1) + [Line(lines[n - 1])]
  {
    assert lines[..n][..n - 1] == lines[..n - 1];
    assert keys[..n][..n - 1] == keys[..n - 1];
  }

  lemma DropLast<T>(s: seq<T>)
    requires 0 < |s|
    ensures s[..|s| - 1] + [s[|s| - 1]] == s
  {
  }

  /** Every entry is a line or a separator. */
  lemma {:induction false} EntryCount(w: seq<Written>)
    ensures |w| == |Lines(w)| + Spaces(w)
    decreases |w|
  {
    if w != [] {
      EntryCount(w[..|w| - 1]);
    }
  }

  lemma {:induction false} LinesOfEntries(lines: seq<string>, keys: seq<string>, sentinel: Option<string>)
    requires |lines| == |keys|
    ensures Lines(Entries(lines, keys, sentinel)) == lines
    decreases |lines|
  {
    if lines != [] {
      var n := |lines| - 1;
      var prev := Entries(lines[..n], keys[..n], sentinel);
      var sep := SepBefore(keys, sentinel, n);
      var last: seq<Written> := [Line(lines[n])];
      LinesOfEntries(lines[..n], keys[..n], sentinel);
      LinesAppend(prev, sep);
      LinesAppend(prev + sep, last);
      assert Lines(sep) == [];
      assert Lines(last) == [lines[n]];
      DropLast(lines);
    }
  }

  lemma {:induction false} SpacesOfEntries(lines: seq<string>, keys: seq<string>, sentinel: Option<string>)
    requires |lines| == |keys|
    ensures Spaces(Entries(lines, keys, sentinel)) == Changes(keys, sentinel, |keys|)
    decreases |lines|
  {
    if lines != [] {
      var n := |lines| - 1;
      var prev := Entries(lines[..n], keys[..n], sentinel);
      var sep := SepBefore(keys, sentinel, n);
      var last: seq<Written> := [Line(lines[n])];
      SpacesOfEntries(lines[..n], keys[..n], sentinel);
      ChangesPrefixOf(keys, sentinel, n, n);
      LinesAppend(prev, sep);
      LinesAppend(prev + sep, last);
      assert Spaces(sep) == if Separates(keys, sentinel, n) then 1 else 0;
      assert Spaces(last) == 0;
    }
  }

  /** Every input line is written exactly once, in order and unchanged, and
      the separators written are as many as the lines Separates marks. */
  lemma LinesPreserved(lines: seq<string>, keys: seq<string>, sentinel: Option<string>)
    requires |lines| == |keys|
    ensures Lines(Entries(lines, keys, sentinel)) == lines
    ensures Spaces(Entries(lines, keys, sentinel)) == Changes(keys, sentinel, |keys|)
    ensures |Entries(lines, keys, sentinel)| == |lines| + Changes(keys, sentinel, |keys|)
  {
    LinesOfEntries(lines, keys, sentinel);
    SpacesOfEntries(lines, keys, sentinel);
    EntryCount(Entries(lines, keys, sentinel));
  }

  /** Changes counts only the keys it looks at. */
  lemma {:induction false} ChangesPrefixOf(keys: seq<string>, sentinel: Option<string>, m: nat, n: nat)
    requires m <= n <= |keys|
    ensures Changes(keys[..n], sentinel, m) == Changes(keys, sentinel, m)
    decreases m
  {
    if m > 0 {
      ChangesPrefixOf(keys, sentinel, m - 1, n);
      assert Separates(keys[..n], sentinel, m - 1) == Separates(keys, sentinel, m - 1);
    }
  }

  /** Nothing is written before the first line. */
  lemma NoSeparatorFirst(lines: seq<string>, keys: seq<string>, sentinel: Option<string>)
    requires |lines| == |keys| && 0 < |lines|
    ensures Entries(lines, keys, sentinel)[0] == Line(lines[0])
  {
    assert lines[..|lines|] == lines && keys[..|keys|] == keys;
    LineAt(lines, keys, sentinel, |lines|, 0);
  }

  /** The last entry of what is written for some lines is the last line. */
  lemma EntriesEnd(lines: seq<string>, keys: seq<string>, sentinel: Option<string>)
    requires |lines| == |keys| && 0 < |lines|
    ensures var w := Entries(lines, keys, sentinel); 0 < |w| && w[|w| - 1] == Line(lines[|lines| - 1])
  {
  }

  /** The position of line i in what is written: i + Changes(keys, sentinel, i + 1). */
  function Position(keys: seq<string>, sentinel: Option<string>, i: nat): nat
    requires i < |keys|
  {
    i + Changes(keys, sentinel, i + 1)
  }

  /** The last of n lines is where Position says, after a separator exactly
      when Separates marks it. */
  lemma LineAtLast(lines: seq<string>, keys: seq<string>, sentinel: Option<string>, n: nat)
    requires |lines| == |keys| && 0 < n <= |lines|
    ensures var w := Entries(lines[..n], keys[..n], sentinel);
      var p := Position(keys, sentinel, n - 1);
      p < |w| && w[p] == Line(lines[n - 1])
      && (0 < p && w[p - 1] == Space <==> Separates(keys, sentinel, n - 1))
  {
    var i := n - 1;
    var prev := Entries(lines[..i], keys[..i], sentinel);
    var sep := SepBefore(keys, sentinel, i);
    EntriesPrefix(lines, keys, sentinel, n);
    LinesPreserved(lines[..i], keys[..i], sentinel);
    ChangesPrefixOf(keys, sentinel, i, i);
    assert Position(keys, sentinel, i) == |prev| + |sep|;
    if 0 < i {
      EntriesEnd(lines[..i], keys[..i], sentinel);
    }
    LastEntry(prev, sep, lines[i], Entries(lines[..n], keys[..n], sentinel));
  }

  /** In prev + sep + [Line(x)], where prev ends with a line, the entry
      before Line(x) is a separator exactly when sep is one. */
  lemma LastEntry(prev: seq<Written>, sep: seq<Written>, x: string, w: seq<Written>)
    requires w == prev + sep + [Line(x)] && (sep == [] || sep == [Space])
    requires 0 < |prev| ==> prev[|prev| - 1].Line?
    ensures |prev| + |sep| < |w| && w[|prev| + |sep|] == Line(x)
    ensures (0 < |prev| + |sep| && w[|prev| + |sep| - 1] == Space) <==> sep == [Space]
  {
  }

  /** Line i is entry Position(keys, sentinel, i) of what is written for the
      first n lines, and the entry just before it is a separator exactly
      when Separates marks line i. */
  lemma {:induction false} LineAt(lines: seq<string>, keys: seq<string>, sentinel: Option<string>, n: nat, i: nat)
    requires |lines| == |keys| && i < n <= |lines|
    ensures var w := Entries(lines[..n], keys[..n], sentinel);
      var p := Position(keys, sentinel, i);
      p < |w| && w[p] == Line(lines[i])
      && (0 < p && w[p - 1] == Space <==> Separates(keys, sentinel, i))
    decreases n
  {
    if i < n - 1 {
      var prev := Entries(lines[..n - 1], keys[..n - 1], sentinel);
      var p := Position(keys, sentinel, i);
      LineAt(lines, keys, sentinel, n - 1, i);
      EntriesPrefix(lines, keys, sentinel, n);
      assert Entries(lines[..n], keys[..n], sentinel)[..|prev|] == prev;
    } else {
      LineAtLast(lines, keys, sentinel, n);
    }
  }

  /** When no line is keyed like the sentinel, the script as written writes
      what the rewrite without a sentinel writes. */
  lemma {:induction false} EntriesWithoutSentinel(lines: seq<string>, keys: seq<string>)
    requires |lines| == |keys| && forall j :: 0 <= j < |keys| ==> keys[j] != Sentinel
    ensures Entries(lines, keys, Some(Sentinel)) == Entries(lines, keys, None)
    decreases |lines|
  {
    if lines != [] {
      var n := |lines| - 1;
      EntriesWithoutSentinel(lines[..n], keys[..n]);
      assert SepBefore(keys, Some(Sentinel), n) == SepBefore(keys, None, n);
    }
  }

  /** Exactly when the chapter key changes from one line to the next, a
      separator is written between them: with no sentinel at all, or with a
      sentinel that is no line's key. */
  lemma SeparatorIffChange(lines: seq<string>, keys: seq<string>, sentinel: Option<string>, i: nat)
    requires |lines| == |keys| && i < |lines|
    requires sentinel == None || forall j :: 0 <= j < |keys| ==> Some(keys[j]) != sentinel
    ensures var w := Entries(lines, keys, sentinel);
      var p := Position(keys, sentinel, i);
      p < |w| && w[p] == Line(lines[i])
      && (0 < p && w[p - 1] == Space <==> 0 < i && keys[i - 1] != keys[i])
  {
    assert lines[..|lines|] == lines && keys[..|keys|] == keys;
    LineAt(lines, keys, sentinel, |lines|, i);
  }

  /** The sentinel of the script is a possible key: after a line keyed
      "azz", a change of key gets no separator. */
  lemma SentinelSuppressesSeparator()
    ensures Entries(["a", "b"], [Sentinel, "1"], Some(Sentinel)) == [Line("a"), Line("b")]
    ensures Entries(["a", "b"], [Sentinel, "1"], None) == [Line("a"), Space, Line("b")]
  {
    var lines: seq<string> := ["a", "b"];
    var keys: seq<string> := [Sentinel, "1"];
    assert lines[..1] == ["a"] && keys[..1] == [Sentinel];
    assert lines[..1][..0] == [] && keys[..1][..0] == [];
    assert !Separates(keys, Some(Sentinel), 1) && Separates(keys, None, 1);
  }

  /** What running the script leaves: it raised at a line without a
      `numberline` group (the file is left as it was), or the file is
      replaced by the rewritten text. */
  datatype Outcome = Raised(line: nat) | Rewritten(text: seq<string>)

  /** The step of the loop for line i: the text so far grows by the
      separator, if line i gets one, and by line i. */
  lemma RewriteStep(lines: seq<string>, extract: string -> Option<string>, sentinel: Option<string>, i: nat)
    requires i < |lines| && forall j :: 0 <= j <= i ==> extract(lines[j]).Some?
    ensures var keys := KeysOf(extract, lines[..i + 1]);
      Render(Entries(lines[..i + 1], keys, sentinel))
      == Render(Entries(lines[..i], KeysOf(extract, lines[..i]), sentinel))
         + (if Separates(keys, sentinel, i) then [Separator] else []) + [lines[i]]
    ensures var keys := KeysOf(extract, lines[..i + 1]);
      Separates(keys, sentinel, i) <==>
        0 < i && ChapterKey(extract, lines[i - 1]) != sentinel
        && ChapterKey(extract, lines[i - 1]) != ChapterKey(extract, lines[i])
  {
    var keys := KeysOf(extract, lines[..i + 1]);
    var prev := Entries(lines[..i], KeysOf(extract, lines[..i]), sentinel);
    var sep := SepBefore(keys, sentinel, i);
    assert lines[..i + 1][..i] == lines[..i];
    assert keys[..i] == KeysOf(extract, lines[..i]);
    assert Entries(lines[..i + 1], keys, sentinel) == prev + sep + [Line(lines[i])];
    RenderAppend(prev, sep);
    RenderAppend(prev + sep, [Line(lines[i])]);
    assert Render(sep) == if Separates(keys, sentinel, i) then [Separator] else [];
  }

  /** Every line has a chapter key. */
  predicate AllKeyed(extract: string -> Option<string>, lines: seq<string>)
  {
    forall j :: 0 <= j < |lines| ==> extract(lines[j]).Some?
  }

  /** The state of the loop after the first i lines: all of them have a key,
      `out` is what the script has written for them and `c` is the key of the
      last one (the initial key before the first). */
  ghost predicate Progress(lines: seq<string>, extract: string -> Option<string>, sentinel: Option<string>,
                           i: nat, c: Option<string>, out: seq<string>)
  {
    i <= |lines| && AllKeyed(extract, lines[..i])
    && out == Render(Entries(lines[..i], KeysOf(extract, lines[..i]), sentinel))
    && c == (if i == 0 then sentinel else ChapterKey(extract, lines[i - 1]))
  }

  /** One turn of the loop keeps Progress. */
  lemma ProgressNext(lines: seq<string>, extract: string -> Option<string>, sentinel: Option<string>,
                     i: nat, c: Option<string>, out: seq<string>, nc: string, sep: seq<string>)
    requires Progress(lines, extract, sentinel, i, c, out)
    requires i < |lines| && ChapterKey(extract, lines[i]) == Some(nc)
    requires sep == if c != sentinel && c != Some(nc) then [Separator] else []
    ensures Progress(lines, extract, sentinel, i + 1, Some(nc), out + sep + [lines[i]])
  {
    assert forall j :: 0 <= j < i ==> lines[..i][j] == lines[j] by {
      forall j | 0 <= j < i ensures lines[..i][j] == lines[j] { }
    }
    RewriteStep(lines, extract, sentinel, i);
  }

  /** The body of the loop for line i, whose key is nc: the separator when
      the previous key is not the initial one and differs, then the line. */
  method RewriteLine(lines: seq<string>, extract: string -> Option<string>, sentinel: Option<string>,
                     i: nat, c: Option<string>, out: seq<string>, nc: string)
    returns (nextC: Option<string>, nextOut: seq<string>)
    requires Progress(lines, extract, sentinel, i, c, out)
    requires i < |lines| && ChapterKey(extract, lines[i]) == Some(nc)
    ensures Progress(lines, extract, sentinel, i + 1, nextC, nextOut)
  {
    ghost var sep: seq<string> := [];
    nextC, nextOut := c, out;
    if nextC != sentinel && nextC != Some(nc) {
      nextOut := nextOut + [Separator];
      sep := [Separator];
    }
    if Some(nc) != nextC {
      nextC := Some(nc);
    }
    nextOut := nextOut + [lines[i]];
    assert nextC == Some(nc) && nextOut == out + sep + [lines[i]];
    ProgressNext(lines, extract, sentinel, i, c, out, nc, sep);
  }

  /** The loop of the script with its initial previous key `sentinel`
      (Some(Sentinel) as written): for each line, its chapter key, a
      separator when the previous key is not the initial one and differs,
      then the line. It raises at the first line without a key. */
  method Rewrite(lines: seq<string>, extract: string -> Option<string>, sentinel: Option<string>) returns (r: Outcome)
    ensures r.Raised? ==> (r.line < |lines| && extract(lines[r.line]).None?
                           && AllKeyed(extract, lines[..r.line]))
    ensures r.Rewritten? ==> (AllKeyed(extract, lines)
                              && r.text == Render(Entries(lines, KeysOf(extract, lines), sentinel)))
  {
    var c := sentinel;
    var out: seq<string> := [];
    var i := 0;
    while i < |lines|
      invariant Progress(lines, extract, sentinel, i, c, out)
    {
      var key := ChapterKey(extract, lines[i]);
      if key.None? {
        return Raised(i);
      }
      c, out := RewriteLine(lines, extract, sentinel, i, c, out, key.value);
      i := i + 1;
    }
    assert lines[..i] == lines;
    r := Rewritten(out);
  }
}
