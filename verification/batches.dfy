/** The batch packer of the remote store (`URIRDFStore._graph_to_batches` and its
    inner `regroup`): the N-Triples serialisation of a graph is split into lines,
    deduplicated, and greedily packed into newline-joined request bodies of
    bounded length, by a left fold that starts from one empty batch.

    The serialisation itself belongs to the RDF toolkit; the model starts from
    its text. Python's `list(set(...))` has no specified order, so the order in
    which the distinct lines are folded is a parameter, and every property below
    holds for every order. */
module Batches {
  import opened Outcome

  /** The default of `max_str_size`. */
  const DefaultMaxSize: int := 4096

  /** A closed range of characters. */
  datatype CharRange = CharRange(lo: char, hi: char)

  /** The characters Python's `str.isspace` accepts, which is what `str.strip()`
      with no argument removes. */
  const SpaceRanges: seq<CharRange> := [
    CharRange('\t', '\r'), CharRange('\U{1C}', '\U{1F}'), CharRange(' ', ' '),
    CharRange('\U{85}', '\U{85}'), CharRange('\U{A0}', '\U{A0}'), CharRange('\U{1680}', '\U{1680}'),
    CharRange('\U{2000}', '\U{200A}'), CharRange('\U{2028}', '\U{2029}'), CharRange('\U{202F}', '\U{202F}'),
    CharRange('\U{205F}', '\U{205F}'), CharRange('\U{3000}', '\U{3000}')
  ]

  predicate IsSpace(c: char) {
    exists i :: 0 <= i < |SpaceRanges| && SpaceRanges[i].lo <= c <= SpaceRanges[i].hi
  }

  /** Every character of `s` from `lo` up to `hi` is whitespace. */
  predicate SpaceBetween(s: string, lo: int, hi: int)
    requires 0 <= lo <= hi <= |s|
  {
    forall k :: lo <= k < hi ==> IsSpace(s[k])
  }

  /** Every character of `s` is whitespace. */
  predicate Blank(s: string) {
    SpaceBetween(s, 0, |s|)
  }

  /** `s` neither begins nor ends with whitespace. */
  predicate Trimmed(s: string) {
    s == [] || (!IsSpace(s[0]) && !IsSpace(s[|s| - 1]))
  }

  /** The forward scan of `str.strip()`: the first index at or after `i` that
      does not hold whitespace, or `|s|`. */
  function SkipSpace(s: string, i: int): (r: int)
    requires 0 <= i <= |s|
    ensures i <= r <= |s| && SpaceBetween(s, i, r)
    ensures r == |s| || !IsSpace(s[r])
    decreases |s| - i
  {
    if i == |s| || !IsSpace(s[i]) then i else SkipSpace(s, i + 1)
  }

  /** The backward scan of `str.strip()`: the smallest `r`, not below `lo`, such
      that everything from `r` up to `j` is whitespace. */
  function SkipSpaceBack(s: string, lo: int, j: int): (r: int)
    requires 0 <= lo <= j <= |s|
    ensures lo <= r <= j && SpaceBetween(s, r, j)
    ensures r == lo || !IsSpace(s[r - 1])
    decreases j
  {
    if j == lo || !IsSpace(s[j - 1]) then j else SkipSpaceBack(s, lo, j - 1)
  }

  /** `s.strip()`: the slice between the two scans. */
  function Strip(s: string): string {
    var i := SkipSpace(s, 0);
    s[i..SkipSpaceBack(s, i, |s|)]
  }

  /** What `str.strip()` promises: the result is the slice of `s` left after
      removing a whitespace prefix and a whitespace suffix, it neither begins
      nor ends with whitespace, and it is empty exactly when `s` is blank. */
  lemma {:induction false} StripSpec(s: string)
    ensures Strip(s) == [] <==> Blank(s)
    ensures Trimmed(Strip(s))
    ensures exists i, j :: 0 <= i <= j <= |s| && Strip(s) == s[i..j] && SpaceBetween(s, 0, i) && SpaceBetween(s, j, |s|)
  {
    var i := SkipSpace(s, 0);
    var j := SkipSpaceBack(s, i, |s|);
    if i < j {
      assert s[i..j][0] == s[i];
      assert s[i..j][j - i - 1] == s[j - 1];
    }
    assert Strip(s) == s[i..j];
  }

  /** `"\n".join(xs)`. */
  function Join(xs: seq<string>): string
  {
    if |xs| == 0 then ""
    else if |xs| == 1 then xs[0]
    else Join(xs[..|xs| - 1]) + "\n" + xs[|xs| - 1]
  }

  /** Joining after appending one more element adds a separator and the element. */
  lemma {:induction false} JoinSnoc(xs: seq<string>, x: string)
    requires |xs| > 0
    ensures Join(xs + [x]) == Join(xs) + "\n" + x
  {
    assert (xs + [x])[..|xs|] == xs;
  }

  /** Joining from the front: the mirror image of the definition. */
  lemma {:induction false} JoinCons(x: string, ys: seq<string>)
    requires |ys| > 0
    ensures Join([x] + ys) == x + "\n" + Join(ys)
    decreases |ys|
  {
    if |ys| == 1 {
      assert [x] + ys == [x] + [ys[0]];
      JoinSnoc([x], ys[0]);
    } else {
      var init := ys[..|ys| - 1];
      var last := ys[|ys| - 1];
      assert ys == init + [last];
      assert [x] + ys == ([x] + init) + [last];
      JoinCons(x, init);
      JoinSnoc([x] + init, last);
      JoinSnoc(init, last);
    }
  }

  /** `s.split("\n")`: the newline-free pieces between separators, at least one. */
  function SplitLines(s: string): (r: seq<string>)
    ensures |r| > 0
    ensures NoNewlines(r)
    ensures Join(r) == s
    decreases |s|
  {
    if |s| == 0 then [""]
    else
      var rest := SplitLines(s[1..]);
      if s[0] == '\n' then
        SplitAtNewline(s, rest);
        [""] + rest
      else
        SplitAtChar(s, rest);
        [[s[0]] + rest[0]] + rest[1..]
  }

  /** A leading newline opens an empty first piece. */
  lemma {:induction false} SplitAtNewline(s: string, rest: seq<string>)
    requires |s| > 0 && s[0] == '\n'
    requires |rest| > 0 && NoNewlines(rest) && Join(rest) == s[1..]
    ensures NoNewlines([""] + rest) && Join([""] + rest) == s
  {
    JoinCons("", rest);
    assert s == "\n" + s[1..];
    var r := [""] + rest;
    forall i | 0 <= i < |r| ensures '\n' !in r[i] {
      if i > 0 {
        assert r[i] == rest[i - 1];
      }
    }
  }

  /** Any other leading character joins the first piece. */
  lemma {:induction false} SplitAtChar(s: string, rest: seq<string>)
    requires |s| > 0 && s[0] != '\n'
    requires |rest| > 0 && NoNewlines(rest) && Join(rest) == s[1..]
    ensures NoNewlines([[s[0]] + rest[0]] + rest[1..])
    ensures Join([[s[0]] + rest[0]] + rest[1..]) == s
  {
    PrependNoNewlines(s[0], rest);
    assert s == [s[0]] + s[1..];
    PrependJoin(s[0], rest);
  }

  lemma {:induction false} PrependNoNewlines(c: char, rest: seq<string>)
    requires c != '\n' && |rest| > 0 && NoNewlines(rest)
    ensures NoNewlines([[c] + rest[0]] + rest[1..])
  {
    var r := [[c] + rest[0]] + rest[1..];
    forall i | 0 <= i < |r| ensures '\n' !in r[i] {
      if i > 0 {
        assert r[i] == rest[i];
      } else {
        assert '\n' !in rest[0];
      }
    }
  }

  lemma {:induction false} PrependJoin(c: char, rest: seq<string>)
    requires |rest| > 0
    ensures Join([[c] + rest[0]] + rest[1..]) == [c] + Join(rest)
  {
    var head := [c] + rest[0];
    if |rest| == 1 {
      assert [head] + rest[1..] == [head];
      assert rest == [rest[0]];
    } else {
      assert [rest[0]] + rest[1..] == rest;
      JoinCons(rest[0], rest[1..]);
      JoinCons(head, rest[1..]);
      PrependLine(c, rest[0], Join(rest[1..]));
    }
  }

  lemma {:induction false} PrependLine(c: char, a: string, j: string)
    ensures ([c] + a) + "\n" + j == [c] + (a + "\n" + j)
  {
  }

  /** Splitting undoes joining for newline-free pieces. */
  lemma {:induction false} SplitJoin(xs: seq<string>)
    requires |xs| > 0
    requires NoNewlines(xs)
    ensures SplitLines(Join(xs)) == xs
    decreases |xs|
  {
    if |xs| == 1 {
      SplitNoNewline(xs[0]);
    } else {
      var init := xs[..|xs| - 1];
      var x := xs[|xs| - 1];
      assert NoNewlines(init) by {
        forall i | 0 <= i < |init| ensures '\n' !in init[i] {
          assert init[i] == xs[i];
        }
      }
      var j := Join(init);
      assert xs == init + [x];
      JoinSnoc(init, x);
      SplitJoin(init);
      SplitAppend(j, x);
    }
  }


  /** A string without newlines splits into itself. */
  lemma {:induction false} SplitNoNewline(s: string)
    requires '\n' !in s
    ensures SplitLines(s) == [s]
    decreases |s|
  {
    if |s| > 0 {
      assert '\n' !in s[1..] by {
        forall c | c in s[1..] ensures c in s { }
      }
      SplitNoNewline(s[1..]);
      assert [s[0]] + s[1..] == s;
    }
  }

  /** Splitting `a + "\n" + x` splits `a` and appends `x` when `x` has no newline. */
  lemma {:induction false} SplitAppend(a: string, x: string)
    requires '\n' !in x
    ensures SplitLines(a + "\n" + x) == SplitLines(a) + [x]
    decreases |a|
  {
    var t := a + "\n" + x;
    if |a| == 0 {
      assert t == ['\n'] + x;
      assert t[1..] == x;
      SplitNoNewline(x);
    } else {
      assert t[1..] == a[1..] + "\n" + x;
      assert t[0] == a[0];
      SplitAppend(a[1..], x);
      SplitStepSnoc(a[0], SplitLines(a[1..]), x);
    }
  }

  /** The step of `SplitLines` commutes with appending a last piece. */
  lemma {:induction false} SplitStepSnoc(c: char, rest: seq<string>, x: string)
    requires |rest| > 0
    ensures [""] + (rest + [x]) == ([""] + rest) + [x]
    ensures [[c] + (rest + [x])[0]] + (rest + [x])[1..] == ([[c] + rest[0]] + rest[1..]) + [x]
  {
    assert (rest + [x])[0] == rest[0];
    assert (rest + [x])[1..] == rest[1..] + [x];
  }

  /** What `regroup` makes of one input line: its stripped form, or nothing if blank. */
  function Item(line: string): seq<string>
  {
    var l := Strip(line);
    if |l| == 0 then [] else [l]
  }

  /** The non-blank stripped lines, in processing order. */
  function Items(lines: seq<string>): seq<string>
  {
    if |lines| == 0 then [] else Item(lines[0]) + Items(lines[1..])
  }

  /** Some element of `xs` satisfies `p`. */
  predicate Any<T>(xs: seq<T>, p: T -> bool) {
    exists k :: 0 <= k < |xs| && p(xs[k])
  }

  lemma {:induction false} AnyCons<T>(xs: seq<T>, p: T -> bool)
    requires |xs| > 0
    ensures Any(xs, p) <==> p(xs[0]) || Any(xs[1..], p)
  {
    if Any(xs, p) {
      var k :| 0 <= k < |xs| && p(xs[k]);
      if k > 0 {
        assert xs[1..][k - 1] == xs[k];
      }
    }
    if Any(xs[1..], p) {
      var k :| 0 <= k < |xs| - 1 && p(xs[1..][k]);
      assert xs[k + 1] == xs[1..][k];
    }
  }

  /** Whether a line strips to `x`. */
  function StripsToValue(x: string): string -> bool {
    line => Strip(line) == x
  }

  /** Some line of `lines` strips to `x`. */
  predicate StripsTo(lines: seq<string>, x: string) {
    Any(lines, StripsToValue(x))
  }

  /** The items are exactly the non-blank stripped input lines. */
  lemma {:induction false} ItemsMembership(lines: seq<string>, x: string)
    ensures x in Items(lines) <==> x != "" && StripsTo(lines, x)
    decreases |lines|
  {
    if |lines| > 0 {
      var tail := lines[1..];
      ItemsMembership(tail, x);
      AnyCons(lines, StripsToValue(x));
      assert Items(lines) == Item(lines[0]) + Items(tail);
      assert x in Item(lines[0]) <==> x != "" && Strip(lines[0]) == x;
    }
  }

  /** No string of `xs` contains a newline. */
  predicate NoNewlines(xs: seq<string>) {
    forall i :: 0 <= i < |xs| ==> '\n' !in xs[i]
  }

  /** Stripping never introduces a newline. */
  lemma {:induction false} ItemsNoNewlines(lines: seq<string>)
    ensures NoNewlines(lines) ==> NoNewlines(Items(lines))
    decreases |lines|
  {
    if |lines| > 0 {
      ItemsNoNewlines(lines[1..]);
      if NoNewlines(lines) {
        assert NoNewlines(lines[1..]);
      }
    }
  }

  /** The text of a batch up to its first newline: its first statement line. */
  function FirstLine(s: string): string
  {
    if |s| == 0 || s[0] == '\n' then "" else [s[0]] + FirstLine(s[1..])
  }

  lemma {:induction false} FirstLineNoNewline(s: string)
    requires '\n' !in s
    ensures FirstLine(s) == s
  {
    if |s| > 0 {
      assert '\n' !in s[1..] by {
        forall c | c in s[1..] ensures c in s { }
      }
      FirstLineNoNewline(s[1..]);
    }
  }

  lemma {:induction false} FirstLineAppend(a: string, b: string)
    ensures FirstLine(a + "\n" + b) == FirstLine(a)
  {
    if |a| > 0 {
      assert (a + "\n" + b)[1..] == a[1..] + "\n" + b;
      FirstLineAppend(a[1..], b);
    }
  }

  /** The fit test deciding whether `line` opens a new batch after `last`.
      `AsWritten` is the test of the source; `SeparatorCounted` also counts the
      newline that joins `line` to a non-empty `last`, which is what the
      doc-comment's promise of batches shorter than `max_str_size` needs. */
  datatype FitTest = AsWritten | SeparatorCounted

  predicate OpensBatch(fit: FitTest, last: string, line: string, maxSize: int) {
    match fit
    case AsWritten => |line| + |last| > maxSize
    case SeparatorCounted => |last| > 0 && |last| + 1 + |line| >= maxSize
  }

  /** The longest batch a fit test lets through. */
  function Bound(fit: FitTest, maxSize: int): int {
    match fit
    case AsWritten => maxSize + 1
    case SeparatorCounted => maxSize - 1
  }

  /** The assertion `len(line) < max_str_size` failed for this stripped line. */
  datatype PackError = LineTooLong(line: string)

  /** A non-blank line that is too long for the assertion. */
  predicate TooLong(line: string, maxSize: int) {
    var l := Strip(line);
    |l| > 0 && |l| >= maxSize
  }

  /** Whether a line is too long. */
  function TooLongFor(maxSize: int): string -> bool {
    line => TooLong(line, maxSize)
  }

  /** Some line of `lines` is too long. */
  predicate AnyTooLong(lines: seq<string>, maxSize: int) {
    Any(lines, TooLongFor(maxSize))
  }

  /** One step of the fold: the inner function `regroup`. */
  function Regroup(fit: FitTest, groups: seq<string>, line: string, maxSize: int)
    : (r: Result<seq<string>, PackError>)
    requires |groups| > 0
    ensures r.Err? <==> TooLong(line, maxSize)
    ensures r.Ok? ==> |r.value| > 0
    ensures r.Ok? && Strip(line) == "" ==> r.value == groups
  {
    var l := Strip(line);
    if |l| == 0 then Ok(groups)
    else if !(|l| < maxSize) then Err(LineTooLong(l))
    else
      var gs := if OpensBatch(fit, groups[|groups| - 1], l, maxSize) then groups + [""] else groups;
      var last := gs[|gs| - 1];
      Ok(gs[..|gs| - 1] + [last + (if |last| > 0 then "\n" else "") + l])
  }

  /** `reduce(regroup, lines, groups)`; an assertion failure aborts the fold. */
  function Fold(fit: FitTest, groups: seq<string>, lines: seq<string>, maxSize: int)
    : Result<seq<string>, PackError>
    requires |groups| > 0
    decreases |lines|
  {
    if |lines| == 0 then Ok(groups)
    else
      match Regroup(fit, groups, lines[0], maxSize)
      case Err(e) => Err(e)
      case Ok(gs) => Fold(fit, gs, lines[1..], maxSize)
  }

  /** Each batch is opened only when the first line of the next one fails the fit test. */
  predicate Greedy(fit: FitTest, batches: seq<string>, maxSize: int) {
    forall i :: 0 <= i < |batches| - 1 ==> OpensBatch(fit, batches[i], FirstLine(batches[i + 1]), maxSize)
  }

  /** What the fold keeps about its accumulator `acc` after folding in the items `done`. */
  predicate Packed(fit: FitTest, acc: seq<string>, done: seq<string>, maxSize: int) {
    && |acc| > 0
    && Join(acc) == Join(done)
    && (|done| == 0 ==> acc == [""])
    && (|done| > 0 ==> |acc| <= |done| && forall i :: 0 <= i < |acc| ==> acc[i] != "")
    && (|done| > 0 ==> forall i :: 0 <= i < |acc| ==> |acc[i]| <= Bound(fit, maxSize))
    && (NoNewlines(done) ==> Greedy(fit, acc, maxSize))
  }

  lemma {:induction false} NoNewlinesSnoc(done: seq<string>, l: string)
    ensures NoNewlines(done + [l]) <==> NoNewlines(done) && '\n' !in l
  {
    var done' := done + [l];
    assert done'[|done|] == l;
    assert forall i :: 0 <= i < |done| ==> done'[i] == done[i];
  }

  /** The first item goes into the initial empty batch. */
  lemma {:induction false} PackedFirst(fit: FitTest, l: string, maxSize: int)
    requires 0 < |l| < maxSize
    ensures Packed(fit, [l], [l], maxSize)
  {
  }

  /** An item that fails the fit test opens a batch of its own. */
  lemma {:induction false} PackedOpen(fit: FitTest, acc: seq<string>, done: seq<string>, l: string, maxSize: int)
    requires Packed(fit, acc, done, maxSize) && |done| > 0
    requires 0 < |l| < maxSize
    requires OpensBatch(fit, acc[|acc| - 1], l, maxSize)
    ensures Packed(fit, acc + [l], done + [l], maxSize)
  {
    var r := acc + [l];
    JoinSnoc(acc, l);
    JoinSnoc(done, l);
    NoNewlinesSnoc(done, l);
    if '\n' !in l {
      FirstLineNoNewline(l);
    }
    assert forall i :: 0 <= i < |acc| ==> r[i] == acc[i];
    assert r[|acc|] == l;
  }

  /** An item that passes the fit test is appended to the last batch after a newline. */
  lemma {:induction false} PackedExtend(fit: FitTest, acc: seq<string>, done: seq<string>, l: string, maxSize: int)
    requires Packed(fit, acc, done, maxSize) && |done| > 0
    requires 0 < |l| < maxSize
    requires !OpensBatch(fit, acc[|acc| - 1], l, maxSize)
    ensures Packed(fit, acc[..|acc| - 1] + [acc[|acc| - 1] + "\n" + l], done + [l], maxSize)
  {
    var init := acc[..|acc| - 1];
    assert acc == init + [acc[|acc| - 1]];
    ExtendJoin(init, acc[|acc| - 1], done, l);
    ExtendShape(fit, acc, done, l, maxSize);
    ExtendGreedy(fit, acc, done, l, maxSize);
  }

  lemma {:induction false} ExtendJoin(init: seq<string>, last: string, done: seq<string>, l: string)
    requires |done| > 0 && Join(init + [last]) == Join(done)
    ensures Join(init + [last + "\n" + l]) == Join(done + [l])
  {
    JoinExtendLast(init, last, l);
    JoinSnoc(done, l);
  }

  /** Extending the last element by a line extends the join by that line. */
  lemma {:induction false} JoinExtendLast(init: seq<string>, last: string, l: string)
    ensures Join(init + [last + "\n" + l]) == Join(init + [last]) + "\n" + l
  {
    var joined := last + "\n" + l;
    if |init| > 0 {
      JoinSnoc(init, last);
      JoinSnoc(init, joined);
      var j := Join(init);
      assert j + "\n" + joined == (j + "\n" + last) + "\n" + l;
    } else {
      assert init + [joined] == [joined];
      assert init + [last] == [last];
    }
  }

  lemma {:induction false} ExtendShape(fit: FitTest, acc: seq<string>, done: seq<string>, l: string, maxSize: int)
    requires Packed(fit, acc, done, maxSize) && |done| > 0
    requires 0 < |l| < maxSize
    requires !OpensBatch(fit, acc[|acc| - 1], l, maxSize)
    ensures var r := acc[..|acc| - 1] + [acc[|acc| - 1] + "\n" + l];
            && |r| <= |done + [l]|
            && (forall i :: 0 <= i < |r| ==> r[i] != "")
            && (forall i :: 0 <= i < |r| ==> |r[i]| <= Bound(fit, maxSize))
  {
    var last := acc[|acc| - 1];
    var init := acc[..|acc| - 1];
    var joined := last + "\n" + l;
    var r := init + [joined];
    assert last != "";
    assert |joined| <= Bound(fit, maxSize);
    forall i | 0 <= i < |r| ensures r[i] != "" && |r[i]| <= Bound(fit, maxSize) {
      if i < |init| {
        assert r[i] == acc[i];
      } else {
        assert r[i] == joined;
      }
    }
  }

  lemma {:induction false} ExtendGreedy(fit: FitTest, acc: seq<string>, done: seq<string>, l: string, maxSize: int)
    requires |acc| > 0 && (NoNewlines(done) ==> Greedy(fit, acc, maxSize))
    requires acc[|acc| - 1] != ""
    ensures NoNewlines(done + [l]) ==> Greedy(fit, acc[..|acc| - 1] + [acc[|acc| - 1] + "\n" + l], maxSize)
  {
    var last := acc[|acc| - 1];
    var init := acc[..|acc| - 1];
    var joined := last + "\n" + l;
    var r := init + [joined];
    NoNewlinesSnoc(done, l);
    if NoNewlines(done + [l]) {
      forall i | 0 <= i < |r| - 1 ensures OpensBatch(fit, r[i], FirstLine(r[i + 1]), maxSize) {
        assert r[i] == acc[i];
        if i + 1 < |init| {
          assert r[i + 1] == acc[i + 1];
        } else {
          assert r[i + 1] == joined;
          FirstLineAppend(last, l);
          assert FirstLine(joined) == FirstLine(last);
          assert acc[i + 1] == last;
        }
      }
    }
  }

  lemma {:induction false} RegroupKeepsPacked(fit: FitTest, acc: seq<string>, done: seq<string>, line: string, maxSize: int)
    requires Packed(fit, acc, done, maxSize)
    requires Regroup(fit, acc, line, maxSize).Ok?
    ensures Packed(fit, Regroup(fit, acc, line, maxSize).value, done + Item(line), maxSize)
  {
    var l := Strip(line);
    var r := Regroup(fit, acc, line, maxSize).value;
    if |l| == 0 {
      assert done + Item(line) == done;
    } else {
      assert Item(line) == [l];
      assert |l| < maxSize;
      var last := acc[|acc| - 1];
      if |done| == 0 {
        assert acc == [""];
        assert !OpensBatch(fit, last, l, maxSize);
        assert "" + "" + l == l;
        assert [""][..0] + [l] == [l];
        assert r == [l];
        PackedFirst(fit, l, maxSize);
      } else if OpensBatch(fit, last, l, maxSize) {
        assert (acc + [""])[..|acc|] == acc;
        assert "" + "" + l == l;
        assert r == acc + [l];
        PackedOpen(fit, acc, done, l, maxSize);
      } else {
        assert last != "";
        assert r == acc[..|acc| - 1] + [last + "\n" + l];
        PackedExtend(fit, acc, done, l, maxSize);
      }
    }
  }

  lemma {:induction false} FoldKeepsPacked(
    fit: FitTest, acc: seq<string>, done: seq<string>, lines: seq<string>, maxSize: int)
    requires Packed(fit, acc, done, maxSize)
    ensures Fold(fit, acc, lines, maxSize).Ok? ==> Packed(fit, Fold(fit, acc, lines, maxSize).value, done + Items(lines), maxSize)
    decreases |lines|
  {
    if |lines| > 0 {
      var step := Regroup(fit, acc, lines[0], maxSize);
      if step.Ok? {
        var done' := done + Item(lines[0]);
        ItemsAssoc(done, lines);
        assert Fold(fit, acc, lines, maxSize) == Fold(fit, step.value, lines[1..], maxSize);
        RegroupKeepsPacked(fit, acc, done, lines[0], maxSize);
        FoldKeepsPacked(fit, step.value, done', lines[1..], maxSize);
      }
    } else {
      assert done + Items(lines) == done;
    }
  }

  lemma {:induction false} ItemsAssoc(done: seq<string>, lines: seq<string>)
    requires |lines| > 0
    ensures (done + Item(lines[0])) + Items(lines[1..]) == done + Items(lines)
  {
    assert Items(lines) == Item(lines[0]) + Items(lines[1..]);
  }

  /** The fold fails exactly when some line is too long, whatever the accumulator. */
  lemma {:induction false} FoldFails(fit: FitTest, acc: seq<string>, lines: seq<string>, maxSize: int)
    requires |acc| > 0
    ensures Fold(fit, acc, lines, maxSize).Err? <==> AnyTooLong(lines, maxSize)
    decreases |lines|
  {
    if |lines| > 0 {
      var step := Regroup(fit, acc, lines[0], maxSize);
      AnyCons(lines, TooLongFor(maxSize));
      if step.Ok? {
        FoldFails(fit, step.value, lines[1..], maxSize);
      }
    }
  }

  /** The fold from one empty batch, for either fit test. */
  function PackWith(fit: FitTest, lines: seq<string>, maxSize: int): (r: Result<seq<string>, PackError>)
    ensures r.Err? <==> AnyTooLong(lines, maxSize)
    ensures r.Ok? ==> Packed(fit, r.value, Items(lines), maxSize)
  {
    FoldFromStart(fit, lines, maxSize);
    FoldFails(fit, [""], lines, maxSize);
    Fold(fit, [""], lines, maxSize)
  }

  lemma {:induction false} FoldFromStart(fit: FitTest, lines: seq<string>, maxSize: int)
    ensures var r := Fold(fit, [""], lines, maxSize);
            r.Ok? ==> Packed(fit, r.value, Items(lines), maxSize)
  {
    FoldKeepsPacked(fit, [""], [], lines, maxSize);
    assert [] + Items(lines) == Items(lines);
  }

  /** The packer as written. Joining the batches gives back the non-blank
      stripped lines in processing order; blank input yields the single empty
      batch, otherwise no batch is empty and there are at most as many batches
      as items; a batch may reach `maxSize + 1` characters; a new batch is
      opened only when the next line did not fit; any too-long line is an
      error, never a split. */
  function Pack(lines: seq<string>, maxSize: int): (r: Result<seq<string>, PackError>)
    ensures r.Err? <==> AnyTooLong(lines, maxSize)
    ensures r.Ok? ==> Join(r.value) == Join(Items(lines))
    ensures r.Ok? && Items(lines) == [] ==> r.value == [""]
    ensures r.Ok? && Items(lines) != [] ==>
              |r.value| <= |Items(lines)| && forall i :: 0 <= i < |r.value| ==> r.value[i] != ""
    ensures r.Ok? && Items(lines) != [] ==> forall i :: 0 <= i < |r.value| ==> |r.value[i]| <= maxSize + 1
    ensures r.Ok? && NoNewlines(lines) ==>
              forall i :: 0 <= i < |r.value| - 1 ==> |r.value[i]| + |FirstLine(r.value[i + 1])| > maxSize
  {
    ItemsNoNewlines(lines);
    PackWith(AsWritten, lines, maxSize)
  }

  /** The batch bound of the source can be exceeded by one: two lines whose
      lengths add up to exactly `maxSize` (say "ab" and "c" under a limit of
      three) pass the fit test and share a batch of `maxSize + 1` characters. */
  lemma {:induction false} PackExceedsLimit(x: string, y: string, maxSize: int)
    requires x != "" && Strip(x) == x
    requires y != "" && Strip(y) == y
    requires |x| + |y| == maxSize
    ensures Pack([x, y], maxSize) == Ok([x + "\n" + y])
    ensures |x + "\n" + y| == maxSize + 1
  {
    FoldPair(x, y, maxSize);
    assert Pack([x, y], maxSize) == Fold(AsWritten, [""], [x, y], maxSize);
  }

  lemma {:induction false} FoldPair(x: string, y: string, maxSize: int)
    requires x != "" && Strip(x) == x
    requires y != "" && Strip(y) == y
    requires |x| + |y| == maxSize
    ensures Fold(AsWritten, [""], [x, y], maxSize) == Ok([x + "\n" + y])
  {
    var xy := x + "\n" + y;
    RegroupPair(x, y, maxSize);
    assert [x, y][1..] == [y];
    assert Fold(AsWritten, [x], [y], maxSize) == Ok([xy]) by {
      assert [y][1..] == [];
      assert Fold(AsWritten, [xy], [], maxSize) == Ok([xy]);
    }
  }

  lemma {:induction false} RegroupPair(x: string, y: string, maxSize: int)
    requires x != "" && Strip(x) == x
    requires y != "" && Strip(y) == y
    requires |x| + |y| == maxSize
    ensures Regroup(AsWritten, [""], x, maxSize) == Ok([x])
    ensures Regroup(AsWritten, [x], y, maxSize) == Ok([x + "\n" + y])
  {
    assert "" + "" + x == x;
    assert [""][..0] + [x] == [x];
    assert [x][..0] + [x + "\n" + y] == [x + "\n" + y];
  }

  /** The packer with the separator counted in the fit test: the same contents
      and shape, and every batch strictly shorter than `maxSize`. */
  function PackStrict(lines: seq<string>, maxSize: int): (r: Result<seq<string>, PackError>)
    ensures r.Err? <==> AnyTooLong(lines, maxSize)
    ensures r.Ok? ==> Join(r.value) == Join(Items(lines))
    ensures r.Ok? && Items(lines) == [] ==> r.value == [""]
    ensures r.Ok? && Items(lines) != [] ==>
              |r.value| <= |Items(lines)| && forall i :: 0 <= i < |r.value| ==> r.value[i] != ""
    ensures r.Ok? && Items(lines) != [] ==> forall i :: 0 <= i < |r.value| ==> |r.value[i]| < maxSize
    ensures r.Ok? && NoNewlines(lines) ==>
              forall i :: 0 <= i < |r.value| - 1 ==> |r.value[i]| + 1 + |FirstLine(r.value[i + 1])| >= maxSize
  {
    ItemsNoNewlines(lines);
    PackWith(SeparatorCounted, lines, maxSize)
  }

  /** The shape of a packing of `items`: the single empty batch when there is
      nothing to pack, otherwise no more batches than items and none empty. */
  predicate Shaped(batches: seq<string>, items: seq<string>) {
    && (items == [] ==> batches == [""])
    && (items != [] ==> |batches| <= |items| && forall i :: 0 <= i < |batches| ==> batches[i] != "")
  }

  /** `_graph_to_batches`: `nt` is the serialised graph and `order` the order in
      which `list(set(nt.split("\n")))` enumerates the distinct lines. Every
      non-blank line of `nt` reaches the batches, stripped, and nothing else
      does; the batches obey every promise of `Pack`. */
  function GraphToBatches(nt: string, order: seq<string>, maxSize: int): (r: Result<seq<string>, PackError>)
    requires forall i, j :: 0 <= i < j < |order| ==> order[i] != order[j]
    requires (set l | l in order) == (set l | l in SplitLines(nt))
    ensures r.Err? <==> exists line :: line in SplitLines(nt) && TooLong(line, maxSize)
    ensures r.Ok? ==> Join(r.value) == Join(Items(order))
    ensures forall line :: line in SplitLines(nt) && Strip(line) != "" ==> Strip(line) in Items(order)
    ensures forall x :: x in Items(order) ==> exists line :: line in SplitLines(nt) && Strip(line) == x
    ensures r.Ok? ==> Shaped(r.value, Items(order))
    ensures r.Ok? && Items(order) != [] ==> forall i :: 0 <= i < |r.value| ==> |r.value[i]| <= maxSize + 1
    ensures r.Ok? ==>
              forall i :: 0 <= i < |r.value| - 1 ==> |r.value[i]| + |FirstLine(r.value[i + 1])| > maxSize
  {
    EnumerationFacts(nt, order, maxSize);
    Pack(order, maxSize)
  }

  /** The packing `URIRDFStore.insert` asks for, at the default `max_str_size`:
      a graph with a non-blank line of 4096 or more characters after stripping
      is refused, and otherwise no request body is longer than 4097 characters. */
  function InsertBatches(nt: string, order: seq<string>): (r: Result<seq<string>, PackError>)
    requires forall i, j :: 0 <= i < j < |order| ==> order[i] != order[j]
    requires (set l | l in order) == (set l | l in SplitLines(nt))
    ensures r.Err? <==> exists line :: line in SplitLines(nt) && Strip(line) != "" && |Strip(line)| >= 4096
    ensures r.Ok? ==> forall i :: 0 <= i < |r.value| ==> |r.value[i]| <= 4097
    ensures r.Ok? ==> Join(r.value) == Join(Items(order))
  {
    GraphToBatches(nt, order, DefaultMaxSize)
  }

  /** What `GraphToBatches` needs of an enumeration of the distinct lines. */
  lemma {:induction false} EnumerationFacts(nt: string, order: seq<string>, maxSize: int)
    requires (set l | l in order) == (set l | l in SplitLines(nt))
    ensures forall line :: line in SplitLines(nt) && Strip(line) != "" ==> Strip(line) in Items(order)
    ensures forall x :: x in Items(order) ==> exists line :: line in SplitLines(nt) && Strip(line) == x
    ensures (exists line :: line in SplitLines(nt) && TooLong(line, maxSize))
        <==> AnyTooLong(order, maxSize)
    ensures NoNewlines(order)
  {
    var lines := SplitLines(nt);
    SameElements(order, lines);
    EnumerationItems(order, lines);
    EnumerationTooLong(order, lines, maxSize);
    EnumerationNoNewlines(order, lines);
  }

  lemma {:induction false} SameElements(order: seq<string>, lines: seq<string>)
    requires (set l | l in order) == (set l | l in lines)
    ensures forall x :: x in order <==> x in lines
  {
    var so, sl := (set l | l in order), (set l | l in lines);
    forall x ensures x in order <==> x in lines {
      assert x in order <==> x in so;
      assert x in lines <==> x in sl;
    }
  }

  lemma {:induction false} EnumerationItems(order: seq<string>, lines: seq<string>)
    requires forall x :: x in order <==> x in lines
    ensures forall line :: line in lines && Strip(line) != "" ==> Strip(line) in Items(order)
    ensures forall x :: x in Items(order) ==> exists line :: line in lines && Strip(line) == x
  {
    forall line | line in lines && Strip(line) != ""
      ensures Strip(line) in Items(order)
    {
      var k :| 0 <= k < |order| && order[k] == line;
      ItemsMembership(order, Strip(line));
    }
    forall x | x in Items(order)
      ensures exists line :: line in lines && Strip(line) == x
    {
      ItemsMembership(order, x);
      var k :| 0 <= k < |order| && Strip(order[k]) == x;
      assert order[k] in lines;
    }
  }

  lemma {:induction false} EnumerationTooLong(order: seq<string>, lines: seq<string>, maxSize: int)
    requires forall x :: x in order <==> x in lines
    ensures (exists line :: line in lines && TooLong(line, maxSize)) <==> AnyTooLong(order, maxSize)
  {
    if exists line :: line in lines && TooLong(line, maxSize) {
      var line :| line in lines && TooLong(line, maxSize);
      var k :| 0 <= k < |order| && order[k] == line;
    }
    if AnyTooLong(order, maxSize) {
      var k :| 0 <= k < |order| && TooLong(order[k], maxSize);
      assert order[k] in lines;
    }
  }

  lemma {:induction false} EnumerationNoNewlines(order: seq<string>, lines: seq<string>)
    requires forall x :: x in order ==> x in lines
    requires NoNewlines(lines)
    ensures NoNewlines(order)
  {
    forall i | 0 <= i < |order| ensures '\n' !in order[i] {
      assert order[i] in lines;
      var j :| 0 <= j < |lines| && lines[j] == order[i];
    }
  }
}
