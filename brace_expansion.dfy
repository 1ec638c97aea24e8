/**
 * Brace expansion (`expandBraces`): a recursive-descent parser that walks a
 * string with one shared cursor and turns every `{a,b,...}` group into its
 * alternatives, multiplying them out with the text around them.
 *
 * The three parser loops of the source become three mutually recursive
 * functions, one call per loop iteration, each carrying the loop's own
 * accumulators (`TopLoop` for `parse`, `ExprLoop` for `parseExpr`, `PartLoop`
 * for `parseExprPart`).  Reaching the end of the string inside a group makes
 * the source loop forever; here that outcome is `None`.  `Balanced` says when
 * it does not happen, and the class `BraceParser` runs the source's `while`
 * loops over a mutable cursor, proved to compute the same result.
 */
module BraceExpansion {
  import opened Wrappers

  const OpenBrace: char := '{'
  const CloseBrace: char := '}'
  const Separator: char := ','

  /** The stop characters of `readOuterWord` and `readInnerWord`. */
  const OuterStops: seq<char> := [OpenBrace]
  const InnerStops: seq<char> := [Separator, OpenBrace, CloseBrace]

  /** What a parser loop hands back: the alternatives it built and the cursor after it. */
  datatype Parsed = Parsed(items: seq<string>, next: nat)

  /**
   * What `readUntil` reads: the longest run of characters from `pos` that contains no stop
   * character, and the position where it ends.
   */
  function ReadWord(s: string, pos: nat, stops: seq<char>): (r: (string, nat))
    requires pos <= |s|
    ensures pos <= r.1 <= |s| && r.0 == s[pos..r.1]
    ensures r.1 == |s| || s[r.1] in stops
    ensures pos < |s| && s[pos] !in stops ==> pos < r.1
    decreases |s| - pos
  {
    if pos == |s| || s[pos] in stops then ("", pos)
    else
      var rest := ReadWord(s, pos + 1, stops);
      ([s[pos]] + rest.0, rest.1)
  }

  /** A run free of stop characters that ends at a stop character (or the end) is the word read. */
  lemma {:induction false} ReadWordEndsAt(s: string, pos: nat, stops: seq<char>, n: nat)
    requires pos <= n <= |s|
    requires forall i :: pos <= i < n ==> s[i] !in stops
    requires n == |s| || s[n] in stops
    ensures ReadWord(s, pos, stops) == (s[pos..n], n)
    decreases n - pos
  {
    if pos < n {
      ReadWordEndsAt(s, pos + 1, stops, n);
      assert s[pos..n] == [s[pos]] + s[pos + 1..n];
    }
  }

  /** The word read contains no stop character. */
  lemma {:induction false} ReadWordAvoids(s: string, pos: nat, stops: seq<char>)
    requires pos <= |s|
    ensures forall i :: pos <= i < ReadWord(s, pos, stops).1 ==> s[i] !in stops
    decreases |s| - pos
  {
    if pos < |s| && s[pos] !in stops {
      ReadWordAvoids(s, pos + 1, stops);
    }
  }

  /** `l` glued before every item of `right`, in order. */
  function Prefixed(l: string, right: seq<string>): (r: seq<string>)
    ensures |r| == |right|
    ensures forall j :: 0 <= j < |right| ==> r[j] == l + right[j]
  {
    seq(|right|, j requires 0 <= j < |right| => l + right[j])
  }

  /** `combine`: for each left item in order, that item glued to each right item in order. */
  function Product(left: seq<string>, right: seq<string>): seq<string>
  {
    if left == [] then [] else Product(left[..|left| - 1], right) + Prefixed(left[|left| - 1], right)
  }

  /** The loop of `parse`, from cursor `pos` with the alternatives `items` built so far. */
  function TopLoop(s: string, pos: nat, items: seq<string>): Option<seq<string>>
    requires pos <= |s|
    decreases |s| - pos, 2
  {
    if pos == |s| then Some(items)
    else if s[pos] != OpenBrace then
      var word := ReadWord(s, pos, OuterStops);
      TopLoop(s, word.1, Product(items, [word.0]))
    else
      match ExprLoop(s, pos + 1, [], 0)
      case None => None
      case Some(group) => TopLoop(s, group.next, Product(items, group.items))
  }

  /**
   * The loop of `parseExpr`, just inside a `{`: collects the alternatives and
   * counts the separators up to the closing `}`, which it consumes.
   */
  function ExprLoop(s: string, pos: nat, items: seq<string>, sepCount: nat): (r: Option<Parsed>)
    requires pos <= |s|
    ensures r.Some? ==> pos < r.value.next <= |s| && s[r.value.next - 1] == CloseBrace
    decreases |s| - pos, 1
  {
    if pos == |s| then None
    else if s[pos] == CloseBrace then
      Some(Parsed(if |items| < sepCount + 1 then items + [""] else items, pos + 1))
    else if s[pos] == Separator then ExprLoop(s, pos + 1, items, sepCount + 1)
    else
      match PartLoop(s, pos, [""])
      case None => None
      case Some(part) => ExprLoop(s, part.next, items + part.items, sepCount)
  }

  /**
   * The loop of `parseExprPart`: one alternative of a group, up to (not
   * including) the next `,` or `}`.
   */
  function PartLoop(s: string, pos: nat, items: seq<string>): (r: Option<Parsed>)
    requires pos <= |s|
    ensures r.Some? ==> pos <= r.value.next < |s| && s[r.value.next] in [Separator, CloseBrace]
    ensures r.Some? && s[pos] != Separator && s[pos] != CloseBrace ==> pos < r.value.next
    decreases |s| - pos, 0
  {
    if pos == |s| then None
    else if s[pos] == Separator || s[pos] == CloseBrace then Some(Parsed(items, pos))
    else if s[pos] != OpenBrace then
      var word := ReadWord(s, pos, InnerStops);
      PartLoop(s, word.1, Product(items, [word.0]))
    else
      match ExprLoop(s, pos + 1, [], 0)
      case None => None
      case Some(group) => PartLoop(s, group.next, Product(items, group.items))
  }

  /** `expandBraces`: all expansions of `s`, or `None` where the source never returns. */
  function Expand(s: string): Option<seq<string>>
  {
    TopLoop(s, 0, [""])
  }

  // ---------------------------------------------------------------------------
  // The product of alternatives
  // ---------------------------------------------------------------------------

  /** `combine(L, R)` has |L|·|R| items and holds `L[i] + R[j]` at `i·|R| + j`: left-major order. */
  lemma {:induction false} ProductLength(left: seq<string>, right: seq<string>)
    ensures |Product(left, right)| == |left| * |right|
  {
    if left != [] {
      var n := |left| - 1;
      ProductLength(left[..n], right);
      assert n * |right| + |right| == |left| * |right|;
    }
  }

  /** Row `i`, column `j` of `combine(L, R)` sits at index `i * |R| + j`. */
  lemma {:induction false} ProductEntry(left: seq<string>, right: seq<string>, i: nat, j: nat)
    requires i < |left| && j < |right|
    ensures i * |right| + j < |Product(left, right)|
    ensures Product(left, right)[i * |right| + j] == left[i] + right[j]
  {
    var m := |right|;
    var n := |left| - 1;
    var init := left[..n];
    var p := Product(init, right);
    var row := Prefixed(left[n], right);
    assert Product(left, right) == p + row;
    ProductLength(init, right);
    if i < n {
      ProductEntry(init, right, i, j);
      assert init[i] == left[i];
      assert (p + row)[i * m + j] == p[i * m + j];
    } else {
      assert i == n;
      assert i * m == |p|;
      assert (p + row)[|p| + j] == row[j];
    }
  }

  /** Every item of `combine(L, R)` is some `l + r`; conversely each such pair occurs. */
  lemma {:induction false} ProductMembers(left: seq<string>, right: seq<string>, x: string)
    ensures x in Product(left, right) <==> exists i, j :: 0 <= i < |left| && 0 <= j < |right| && x == left[i] + right[j]
  {
    if left != [] {
      var n := |left| - 1;
      var init := left[..n];
      ProductMembers(init, right, x);
      var row := Prefixed(left[n], right);
      assert Product(left, right) == Product(init, right) + row;
      if x in Product(left, right) {
        if x in row {
          var j :| 0 <= j < |right| && row[j] == x;
          assert x == left[n] + right[j];
        } else {
          var i, j :| 0 <= i < |init| && 0 <= j < |right| && x == init[i] + right[j];
          assert x == left[i] + right[j];
        }
      }
      if exists i, j :: 0 <= i < |left| && 0 <= j < |right| && x == left[i] + right[j] {
        var i, j :| 0 <= i < |left| && 0 <= j < |right| && x == left[i] + right[j];
        if i == n {
          assert row[j] == x;
        } else {
          assert x == init[i] + right[j];
        }
      }
    }
  }

  /** The one-item product `[""]` is a unit on the left. */
  lemma ProductUnitLeft(xs: seq<string>)
    ensures Product([""], xs) == xs
  {
    assert [""][..0] == [];
    assert Product([""], xs) == Prefixed("", xs);
    forall j | 0 <= j < |xs| ensures Prefixed("", xs)[j] == xs[j] {
      assert "" + xs[j] == xs[j];
    }
  }

  /** The one-item product `[""]` is a unit on the right. */
  lemma {:induction false} ProductUnitRight(xs: seq<string>)
    ensures Product(xs, [""]) == xs
  {
    if xs != [] {
      var n := |xs| - 1;
      ProductUnitRight(xs[..n]);
      assert Prefixed(xs[n], [""]) == [xs[n]] by {
        assert xs[n] + [""][0] == xs[n];
      }
      assert xs == xs[..n] + [xs[n]];
    }
  }

  // ---------------------------------------------------------------------------
  // When the parse returns: brace depth
  // ---------------------------------------------------------------------------

  /**
   * The nesting depth after reading one character at depth `d`: `{` opens, `}`
   * closes an open group, and a `}` outside every group is plain text (the
   * outer words only stop at `{`).
   */
  function DepthAfter(d: nat, c: char): nat
  {
    if c == OpenBrace then d + 1
    else if c == CloseBrace && d > 0 then d - 1
    else d
  }

  /** The depth reached at the end of `s` when reading from `pos` at depth `d`. */
  function Scan(s: string, pos: nat, d: nat): nat
    requires pos <= |s|
    decreases |s| - pos
  {
    if pos == |s| then d else Scan(s, pos + 1, DepthAfter(d, s[pos]))
  }

  /** Every `{` of `s` is closed by a later `}`. */
  predicate Balanced(s: string)
  {
    Scan(s, 0, 0) == 0
  }

  /** Characters that leave the depth alone can be skipped. */
  lemma {:induction false} ScanSkips(s: string, pos: nat, n: nat, d: nat)
    requires pos <= n <= |s|
    requires forall i :: pos <= i < n ==> DepthAfter(d, s[i]) == d
    ensures Scan(s, pos, d) == Scan(s, n, d)
    decreases n - pos
  {
    if pos < n {
      ScanSkips(s, pos + 1, n, d);
    }
  }

  /**
   * A group that closes leaves the depth where it found it; one that runs
   * into the end of the string leaves it higher.
   */
  lemma {:induction false} ExprLoopDepth(s: string, pos: nat, items: seq<string>, sepCount: nat, d: nat)
    requires pos <= |s|
    ensures var r := ExprLoop(s, pos, items, sepCount);
      (r.Some? ==> Scan(s, pos, d + 1) == Scan(s, r.value.next, d)) &&
      (r.None? ==> Scan(s, pos, d + 1) > d)
    decreases |s| - pos, 1
  {
    if pos == |s| {
    } else if s[pos] == CloseBrace {
    } else if s[pos] == Separator {
      ExprLoopDepth(s, pos + 1, items, sepCount + 1, d);
    } else {
      PartLoopDepth(s, pos, [""], d + 1);
      match PartLoop(s, pos, [""])
      case None =>
        PartLoopDepth(s, pos, [""], d);
      case Some(part) =>
        ExprLoopDepth(s, part.next, items + part.items, sepCount, d);
    }
  }

  /** One alternative keeps the depth; one that runs into the end of the string leaves it at `d` or above, so never back to zero. */
  lemma {:induction false} PartLoopDepth(s: string, pos: nat, items: seq<string>, d: nat)
    requires pos <= |s|
    ensures var r := PartLoop(s, pos, items);
      (r.Some? ==> Scan(s, pos, d) == Scan(s, r.value.next, d)) &&
      (r.None? && d > 0 ==> Scan(s, pos, d) >= d)
    decreases |s| - pos, 0
  {
    if pos == |s| {
    } else if s[pos] == Separator || s[pos] == CloseBrace {
    } else if s[pos] != OpenBrace {
      var word := ReadWord(s, pos, InnerStops);
      ReadWordAvoids(s, pos, InnerStops);
      ScanSkips(s, pos, word.1, d);
      PartLoopDepth(s, word.1, Product(items, [word.0]), d);
    } else {
      ExprLoopDepth(s, pos + 1, [], 0, d);
      match ExprLoop(s, pos + 1, [], 0)
      case None =>
      case Some(group) =>
        PartLoopDepth(s, group.next, Product(items, group.items), d);
    }
  }

  /** The top-level loop returns exactly when the rest of the string ends at depth zero. */
  lemma {:induction false} TopLoopDepth(s: string, pos: nat, items: seq<string>)
    requires pos <= |s|
    ensures TopLoop(s, pos, items).Some? <==> Scan(s, pos, 0) == 0
    decreases |s| - pos
  {
    if pos == |s| {
    } else if s[pos] != OpenBrace {
      var word := ReadWord(s, pos, OuterStops);
      ReadWordAvoids(s, pos, OuterStops);
      ScanSkips(s, pos, word.1, 0);
      TopLoopDepth(s, word.1, Product(items, [word.0]));
    } else {
      ExprLoopDepth(s, pos + 1, [], 0, 0);
      match ExprLoop(s, pos + 1, [], 0)
      case None =>
      case Some(group) =>
        TopLoopDepth(s, group.next, Product(items, group.items));
    }
  }

  /** The expansion comes back exactly on balanced input. */
  lemma ExpandReturnsIffBalanced(s: string)
    ensures Expand(s).Some? <==> Balanced(s)
  {
    TopLoopDepth(s, 0, [""]);
  }

  // ---------------------------------------------------------------------------
  // What the expansion yields
  // ---------------------------------------------------------------------------

  /** A product of non-empty lists is non-empty. */
  lemma ProductNonEmpty(left: seq<string>, right: seq<string>)
    requires |left| >= 1 && |right| >= 1
    ensures |Product(left, right)| >= 1
  {
    ProductEntry(left, right, 0, 0);
  }

  /** A closed group always yields at least one alternative (the empty one if need be). */
  lemma {:induction false} ExprLoopNonEmpty(s: string, pos: nat, items: seq<string>, sepCount: nat)
    requires pos <= |s|
    ensures ExprLoop(s, pos, items, sepCount).Some? ==> |ExprLoop(s, pos, items, sepCount).value.items| >= 1
    decreases |s| - pos
  {
    if pos < |s| && s[pos] != CloseBrace {
      if s[pos] == Separator {
        ExprLoopNonEmpty(s, pos + 1, items, sepCount + 1);
      } else {
        match PartLoop(s, pos, [""])
        case None =>
        case Some(part) =>
          ExprLoopNonEmpty(s, part.next, items + part.items, sepCount);
      }
    }
  }

  /** An alternative built on a non-empty list stays non-empty. */
  lemma {:induction false} PartLoopNonEmpty(s: string, pos: nat, items: seq<string>)
    requires pos <= |s| && |items| >= 1
    ensures PartLoop(s, pos, items).Some? ==> |PartLoop(s, pos, items).value.items| >= 1
    decreases |s| - pos
  {
    if pos < |s| && s[pos] != Separator && s[pos] != CloseBrace {
      if s[pos] != OpenBrace {
        var word := ReadWord(s, pos, InnerStops);
        ProductNonEmpty(items, [word.0]);
        PartLoopNonEmpty(s, word.1, Product(items, [word.0]));
      } else {
        ExprLoopNonEmpty(s, pos + 1, [], 0);
        match ExprLoop(s, pos + 1, [], 0)
        case None =>
        case Some(group) =>
          ProductNonEmpty(items, group.items);
          PartLoopNonEmpty(s, group.next, Product(items, group.items));
      }
    }
  }

  /** The top-level loop keeps a non-empty list non-empty. */
  lemma {:induction false} TopLoopNonEmpty(s: string, pos: nat, items: seq<string>)
    requires pos <= |s| && |items| >= 1
    ensures TopLoop(s, pos, items).Some? ==> |TopLoop(s, pos, items).value| >= 1
    decreases |s| - pos
  {
    if pos < |s| {
      if s[pos] != OpenBrace {
        var word := ReadWord(s, pos, OuterStops);
        ProductNonEmpty(items, [word.0]);
        TopLoopNonEmpty(s, word.1, Product(items, [word.0]));
      } else {
        ExprLoopNonEmpty(s, pos + 1, [], 0);
        match ExprLoop(s, pos + 1, [], 0)
        case None =>
        case Some(group) =>
          ProductNonEmpty(items, group.items);
          TopLoopNonEmpty(s, group.next, Product(items, group.items));
      }
    }
  }

  /** Every input that expands yields at least one string. */
  lemma ExpandNonEmpty(s: string)
    ensures Expand(s).Some? ==> |Expand(s).value| >= 1
  {
    TopLoopNonEmpty(s, 0, [""]);
  }

  /** A string without `{` expands to itself alone; the empty string to `[""]`. */
  lemma ExpandWithoutBraces(s: string)
    requires OpenBrace !in s
    ensures Expand(s) == Some([s])
  {
    if s != [] {
      var word := ReadWord(s, 0, OuterStops);
      assert word.1 == |s|;
      assert word.0 == s;
      ProductUnitLeft([s]);
      assert TopLoop(s, 0, [""]) == TopLoop(s, |s|, Product([""], [s]));
    }
  }

  // ---------------------------------------------------------------------------
  // Documented examples
  // ---------------------------------------------------------------------------

  /** From index `i` on, `w` has none of the characters of `stops`, checked one character at a time. */
  predicate AvoidsFrom(w: string, i: nat, stops: seq<char>)
    decreases |w| - i
  {
    i >= |w| || (w[i] !in stops && AvoidsFrom(w, i + 1, stops))
  }

  lemma {:induction false} AvoidsEach(w: string, i: nat, stops: seq<char>)
    requires AvoidsFrom(w, i, stops)
    ensures forall k :: i <= k < |w| ==> w[k] !in stops
    decreases |w| - i
  {
    if i < |w| {
      AvoidsEach(w, i + 1, stops);
    }
  }

  /** The word `w` sits at `pos` and ends at a stop character or at the end. */
  lemma WordAt(s: string, pos: nat, w: string, stops: seq<char>)
    requires pos + |w| <= |s| && s[pos..pos + |w|] == w && AvoidsFrom(w, 0, stops)
    requires pos + |w| == |s| || s[pos + |w|] in stops
    ensures ReadWord(s, pos, stops) == (w, pos + |w|)
  {
    AvoidsEach(w, 0, stops);
    forall i | pos <= i < pos + |w| ensures s[i] !in stops {
      assert s[i] == s[pos..pos + |w|][i - pos];
    }
    ReadWordEndsAt(s, pos, stops, pos + |w|);
  }

  /** Reading a word inside a group is one step of `parseExprPart`'s loop. */
  lemma PartWord(s: string, pos: nat, w: string, items: seq<string>)
    requires w != "" && pos + |w| <= |s| && s[pos..pos + |w|] == w && AvoidsFrom(w, 0, InnerStops)
    requires pos + |w| == |s| || s[pos + |w|] in InnerStops
    ensures PartLoop(s, pos, items) == PartLoop(s, pos + |w|, Product(items, [w]))
  {
    WordAt(s, pos, w, InnerStops);
    FirstLetter(s, pos, w, InnerStops);
    PartReads(s, pos, items);
  }

  /** The first letter of a word free of stop characters is no stop character. */
  lemma FirstLetter(s: string, pos: nat, w: string, stops: seq<char>)
    requires w != "" && pos + |w| <= |s| && s[pos..pos + |w|] == w && AvoidsFrom(w, 0, stops)
    ensures s[pos] !in stops
  {
    assert s[pos] == w[0];
  }

  /** Inside a group, a character that is no brace or separator starts a word. */
  lemma PartReads(s: string, pos: nat, items: seq<string>)
    requires pos < |s| && s[pos] !in InnerStops
    ensures PartLoop(s, pos, items) ==
      PartLoop(s, ReadWord(s, pos, InnerStops).1, Product(items, [ReadWord(s, pos, InnerStops).0]))
  {
    assert s[pos] != Separator && s[pos] != CloseBrace && s[pos] != OpenBrace;
  }

  /** Reading a word outside every group is one step of `parse`'s loop. */
  lemma TopWord(s: string, pos: nat, w: string, items: seq<string>)
    requires w != "" && pos + |w| <= |s| && s[pos..pos + |w|] == w && AvoidsFrom(w, 0, OuterStops)
    requires pos + |w| == |s| || s[pos + |w|] in OuterStops
    ensures TopLoop(s, pos, items) == TopLoop(s, pos + |w|, Product(items, [w]))
  {
    WordAt(s, pos, w, OuterStops);
    FirstLetter(s, pos, w, OuterStops);
    assert s[pos] != OpenBrace;
  }

  /** A nested group inside an alternative is one step of `parseExprPart`'s loop. */
  lemma PartGroup(s: string, pos: nat, items: seq<string>, group: Parsed)
    requires pos < |s| && s[pos] == OpenBrace && ExprLoop(s, pos + 1, [], 0) == Some(group)
    ensures PartLoop(s, pos, items) == PartLoop(s, group.next, Product(items, group.items))
  {
  }

  /** `parseExprPart` stops in front of `,` or `}`. */
  lemma PartStop(s: string, pos: nat, items: seq<string>)
    requires pos < |s| && (s[pos] == Separator || s[pos] == CloseBrace)
    ensures PartLoop(s, pos, items) == Some(Parsed(items, pos))
  {
  }

  /** One alternative that reads at least one character is one step of `parseExpr`'s loop. */
  lemma ExprPart(s: string, pos: nat, items: seq<string>, sepCount: nat, part: Parsed)
    requires pos <= |s| && PartLoop(s, pos, [""]) == Some(part) && pos < part.next
    ensures ExprLoop(s, pos, items, sepCount) == ExprLoop(s, part.next, items + part.items, sepCount)
  {
  }

  /** A separator is one step of `parseExpr`'s loop. */
  lemma ExprSeparator(s: string, pos: nat, items: seq<string>, sepCount: nat)
    requires pos < |s| && s[pos] == Separator
    ensures ExprLoop(s, pos, items, sepCount) == ExprLoop(s, pos + 1, items, sepCount + 1)
  {
  }

  /** The closing brace ends `parseExpr`, adding `""` when alternatives are missing. */
  lemma ExprClose(s: string, pos: nat, items: seq<string>, sepCount: nat)
    requires pos < |s| && s[pos] == CloseBrace
    ensures ExprLoop(s, pos, items, sepCount)
      == Some(Parsed(if |items| < sepCount + 1 then items + [""] else items, pos + 1))
  {
  }

  /** A group at the top level is one step of `parse`'s loop. */
  lemma TopGroup(s: string, pos: nat, items: seq<string>, group: Parsed)
    requires pos < |s| && s[pos] == OpenBrace && ExprLoop(s, pos + 1, [], 0) == Some(group)
    ensures TopLoop(s, pos, items) == TopLoop(s, group.next, Product(items, group.items))
  {
  }

  /** A plain word alternative: `parseExprPart` returns just that word. */
  lemma PlainAlternative(s: string, pos: nat, w: string)
    requires w != "" && pos + |w| < |s| && s[pos..pos + |w|] == w && AvoidsFrom(w, 0, InnerStops)
    requires s[pos + |w|] == Separator || s[pos + |w|] == CloseBrace
    ensures PartLoop(s, pos, [""]) == Some(Parsed([w], pos + |w|))
  {
    PartWord(s, pos, w, [""]);
    ProductUnitLeft([w]);
    PartStop(s, pos + |w|, [w]);
  }

  /** A plain word alternative is one step of `parseExpr`'s loop. */
  lemma ExprWord(s: string, pos: nat, w: string, items: seq<string>, sepCount: nat)
    requires w != "" && pos + |w| < |s| && s[pos..pos + |w|] == w && AvoidsFrom(w, 0, InnerStops)
    requires s[pos + |w|] == Separator || s[pos + |w|] == CloseBrace
    ensures ExprLoop(s, pos, items, sepCount) == ExprLoop(s, pos + |w|, items + [w], sepCount)
  {
    PlainAlternative(s, pos, w);
    ExprPart(s, pos, items, sepCount, Parsed([w], pos + |w|));
  }

  lemma ProductOfOne(l: string, right: seq<string>)
    ensures Product([l], right) == Prefixed(l, right)
  {
    assert [l][..0] == [];
  }

  lemma ProductOfTwo(a: string, b: string, right: seq<string>)
    ensures Product([a, b], right) == Prefixed(a, right) + Prefixed(b, right)
  {
    assert [a, b][..1] == [a];
    ProductOfOne(a, right);
  }

  const Thumbnail: string := "thumbnail.{png,jp{e,}g}"

  /** Inside `jp{e,}g`: the group `{e,}` gives `e` and, by the empty-alternative rule, `""`. */
  lemma ThumbnailInnerGroup()
    ensures ExprLoop(Thumbnail, 18, [], 0) == Some(Parsed(["e", ""], 21))
  {
    var s := Thumbnail;
    assert s[18] == 'e' && s[19] == Separator && s[20] == CloseBrace;
    PartWord(s, 18, "e", [""]);
    assert s[18..19] == "e";
    ProductUnitLeft(["e"]);
    PartStop(s, 19, ["e"]);
    ExprPart(s, 18, [], 0, Parsed(["e"], 19));
    assert [] + ["e"] == ["e"];
    ExprSeparator(s, 19, ["e"], 0);
    ExprClose(s, 20, ["e"], 1);
    assert ["e"] + [""] == ["e", ""];
  }

  lemma JpWords()
    ensures Product(["jp"], ["e", ""]) == ["jpe", "jp"]
    ensures Product(["jpe", "jp"], ["g"]) == ["jpeg", "jpg"]
  {
    ProductOfOne("jp", ["e", ""]);
    assert "jp" + "e" == "jpe" && "jp" + "" == "jp";
    ProductOfTwo("jpe", "jp", ["g"]);
    assert "jpe" + "g" == "jpeg" && "jp" + "g" == "jpg";
  }

  /** The alternative `jp{e,}g` gives `jpeg` and `jpg`. */
  lemma ThumbnailSecondAlternative()
    ensures PartLoop(Thumbnail, 15, [""]) == Some(Parsed(["jpeg", "jpg"], 22))
  {
    var s := Thumbnail;
    assert s[15..17] == "jp" && s[17] == OpenBrace;
    PartWord(s, 15, "jp", [""]);
    ProductUnitLeft(["jp"]);
    ThumbnailInnerGroup();
    PartGroup(s, 17, ["jp"], Parsed(["e", ""], 21));
    JpWords();
    ThumbnailSecondAlternativeTail();
  }

  lemma ThumbnailSecondAlternativeTail()
    ensures PartLoop(Thumbnail, 21, ["jpe", "jp"]) == Some(Parsed(["jpeg", "jpg"], 22))
  {
    var s := Thumbnail;
    assert s[21..22] == "g" && s[22] == CloseBrace;
    PartWord(s, 21, "g", ["jpe", "jp"]);
    JpWords();
    PartStop(s, 22, ["jpeg", "jpg"]);
  }

  /** The first alternative `png` and the separator after it. */
  lemma ThumbnailFirstAlternative()
    ensures ExprLoop(Thumbnail, 11, [], 0) == ExprLoop(Thumbnail, 15, ["png"], 1)
  {
    var s := Thumbnail;
    assert s[11..14] == "png" by { assert s[11..14] == [s[11], s[12], s[13]]; }
    assert s[14] == Separator;
    ExtensionWords();
    ExprWord(s, 11, "png", [], 0);
    assert [] + ["png"] == ["png"];
    ExprSeparator(s, 14, ["png"], 0);
  }

  /** The group `{png,jp{e,}g}` gives `png`, `jpeg` and `jpg`. */
  lemma ThumbnailGroup()
    ensures ExprLoop(Thumbnail, 11, [], 0) == Some(Parsed(["png", "jpeg", "jpg"], 23))
  {
    var s := Thumbnail;
    assert s[15] == 'j' && s[22] == CloseBrace;
    ThumbnailFirstAlternative();
    ThumbnailSecondAlternative();
    ExprPart(s, 15, ["png"], 1, Parsed(["jpeg", "jpg"], 22));
    assert ["png"] + ["jpeg", "jpg"] == ["png", "jpeg", "jpg"];
    ExprClose(s, 22, ["png", "jpeg", "jpg"], 1);
  }

  /** `thumbnail.{png,jp{e,}g}` expands to `thumbnail.png`, `thumbnail.jpeg` and `thumbnail.jpg`. */
  lemma ExampleThumbnail()
    ensures Expand(Thumbnail) == Some(["thumbnail.png", "thumbnail.jpeg", "thumbnail.jpg"])
  {
    var s := Thumbnail;
    assert s[0..10] == "thumbnail." && s[10] == OpenBrace && |s| == 23;
    TopWord(s, 0, "thumbnail.", [""]);
    ProductUnitLeft(["thumbnail."]);
    ThumbnailGroup();
    TopGroup(s, 10, ["thumbnail."], Parsed(["png", "jpeg", "jpg"], 23));
    ProductOfOne("thumbnail.", ["png", "jpeg", "jpg"]);
    ThumbnailNames();
  }

  lemma ThumbnailNames()
    ensures Prefixed("thumbnail.", ["png", "jpeg", "jpg"]) == ["thumbnail.png", "thumbnail.jpeg", "thumbnail.jpg"]
  {
    PrefixedThree("thumbnail.", "png", "jpeg", "jpg");
    assert "thumbnail." + "png" == "thumbnail.png";
    assert "thumbnail." + "jpeg" == "thumbnail.jpeg";
    assert "thumbnail." + "jpg" == "thumbnail.jpg";
  }

  /** A prefix glued before three items, spelled out item by item. */
  lemma PrefixedThree(l: string, a: string, b: string, c: string)
    ensures Prefixed(l, [a, b, c]) == [l + a, l + b, l + c]
  {
  }

  /** `s` is `{abc,}`, spelled out character by character. */
  predicate EmptyAlternativeShape(s: string)
  {
    |s| == 6 && s[0] == OpenBrace && s[1] == 'a' && s[2] == 'b' && s[3] == 'c' && s[4] == Separator && s[5] == CloseBrace
  }

  lemma EmptyAlternativeExpansion(s: string)
    requires EmptyAlternativeShape(s)
    ensures Expand(s) == Some(["abc", ""])
  {
    EmptyAlternativeGroup(s);
    TopGroup(s, 0, [""], Parsed(["abc", ""], 6));
    ProductUnitLeft(["abc", ""]);
  }

  lemma EmptyAlternativeGroup(s: string)
    requires EmptyAlternativeShape(s)
    ensures ExprLoop(s, 1, [], 0) == Some(Parsed(["abc", ""], 6))
  {
    assert s[1..4] == "abc" by { assert s[1..4] == [s[1], s[2], s[3]]; }
    ExprWord(s, 1, "abc", [], 0);
    assert [] + ["abc"] == ["abc"];
    ExprSeparator(s, 4, ["abc"], 0);
    ExprClose(s, 5, ["abc"], 1);
    assert ["abc"] + [""] == ["abc", ""];
  }

  /** `{abc,}`: the empty alternative after the last separator is kept. */
  lemma ExampleEmptyAlternative()
    ensures Expand("{abc,}") == Some(["abc", ""])
  {
    assert EmptyAlternativeShape("{abc,}");
    EmptyAlternativeExpansion("{abc,}");
  }

  /** `s` is `{{b,c},}`, spelled out character by character. */
  predicate NestedEmptyShape(s: string)
  {
    && |s| == 8 && s[0] == OpenBrace && s[1] == OpenBrace && s[2] == 'b' && s[3] == Separator
    && s[4] == 'c' && s[5] == CloseBrace && s[6] == Separator && s[7] == CloseBrace
  }

  /** In `{{b,c},}` the inner group `{b,c}` gives `b` and `c`. */
  lemma NestedEmptyInner(s: string)
    requires NestedEmptyShape(s)
    ensures ExprLoop(s, 2, [], 0) == Some(Parsed(["b", "c"], 6))
  {
    assert ExprLoop(s, 2, [], 0) == ExprLoop(s, 3, ["b"], 0) by {
      assert s[2..3] == "b" by { assert s[2..3] == [s[2]]; }
      PlainAlternative(s, 2, "b");
      ExprPart(s, 2, [], 0, Parsed(["b"], 3));
      assert [] + ["b"] == ["b"];
    }
    ExprSeparator(s, 3, ["b"], 0);
    assert ExprLoop(s, 4, ["b"], 1) == ExprLoop(s, 5, ["b", "c"], 1) by {
      assert s[4..5] == "c" by { assert s[4..5] == [s[4]]; }
      PlainAlternative(s, 4, "c");
      ExprPart(s, 4, ["b"], 1, Parsed(["c"], 5));
      assert ["b"] + ["c"] == ["b", "c"];
    }
    ExprClose(s, 5, ["b", "c"], 1);
  }

  lemma NestedEmptyAlternative(s: string)
    requires NestedEmptyShape(s)
    ensures PartLoop(s, 1, [""]) == Some(Parsed(["b", "c"], 6))
  {
    NestedEmptyInner(s);
    PartGroup(s, 1, [""], Parsed(["b", "c"], 6));
    ProductUnitLeft(["b", "c"]);
    PartStop(s, 6, ["b", "c"]);
  }

  lemma NestedEmptyOuter(s: string)
    requires NestedEmptyShape(s)
    ensures ExprLoop(s, 1, [], 0) == Some(Parsed(["b", "c"], 8))
  {
    NestedEmptyAlternative(s);
    ExprPart(s, 1, [], 0, Parsed(["b", "c"], 6));
    assert [] + ["b", "c"] == ["b", "c"];
    ExprSeparator(s, 6, ["b", "c"], 0);
    ExprClose(s, 7, ["b", "c"], 1);
  }

  lemma NestedEmptyExpansion(s: string)
    requires NestedEmptyShape(s)
    ensures Expand(s) == Some(["b", "c"])
  {
    NestedEmptyOuter(s);
    TopGroup(s, 0, [""], Parsed(["b", "c"], 8));
    ProductUnitLeft(["b", "c"]);
  }

  /**
   * `{{b,c},}` expands to `b` and `c` only: the outer group has two items
   * and one separator, so the empty-alternative rule does not fire and the
   * empty alternative after the comma is lost.
   */
  lemma ExampleNestedEmptyAlternativeLost()
    ensures Expand("{{b,c},}") == Some(["b", "c"])
  {
    assert NestedEmptyShape("{{b,c},}");
    NestedEmptyExpansion("{{b,c},}");
  }

  /** `nothing to do` has no group and expands to itself. */
  lemma ExampleNothingToDo()
    ensures Expand("nothing to do") == Some(["nothing to do"])
  {
    ExpandWithoutBraces("nothing to do");
  }

  /** The empty string expands to the one empty string. */
  lemma ExampleEmptyString()
    ensures Expand("") == Some([""])
  {
    ExpandWithoutBraces("");
  }

  const PicturePaths: string := "~/{Downloads,Pictures}/*.{jpg,gif,png}"

  /** Where the words and the punctuation of `PicturePaths` sit. */
  predicate PicturePathsShape(s: string)
  {
    |s| == 38
    && s[0..2] == "~/"
    && s[3..12] == "Downloads"
    && s[13..21] == "Pictures"
    && s[22..25] == "/*."
    && s[26..29] == "jpg"
    && s[30..33] == "gif"
    && s[34..37] == "png"
    && s[2] == OpenBrace
    && s[12] == Separator
    && s[21] == CloseBrace
    && s[25] == OpenBrace
    && s[29] == Separator
    && s[33] == Separator
    && s[37] == CloseBrace
  }

  /** `s` is `PicturePaths`, spelled out character by character. */
  predicate PicturePathsChars(s: string)
  {
    |s| == 38
    && s[0] == '~' && s[1] == '/' && s[2] == OpenBrace && s[3] == 'D' && s[4] == 'o' && s[5] == 'w' && s[6] == 'n' && s[7] == 'l'
    && s[8] == 'o' && s[9] == 'a' && s[10] == 'd' && s[11] == 's' && s[12] == Separator && s[13] == 'P' && s[14] == 'i' && s[15] == 'c'
    && s[16] == 't' && s[17] == 'u' && s[18] == 'r' && s[19] == 'e' && s[20] == 's' && s[21] == CloseBrace && s[22] == '/' && s[23] == '*'
    && s[24] == '.' && s[25] == OpenBrace && s[26] == 'j' && s[27] == 'p' && s[28] == 'g' && s[29] == Separator && s[30] == 'g' && s[31] == 'i'
    && s[32] == 'f' && s[33] == Separator && s[34] == 'p' && s[35] == 'n' && s[36] == 'g' && s[37] == CloseBrace
  }

  lemma PicturePathsLayout()
    ensures PicturePathsShape(PicturePaths)
  {
    PicturePathsPieces();
    PiecesSpellPicturePaths(PicturePaths);
    CharsGiveShape(PicturePaths);
  }

  /** Spelling only, for the proof of `ExamplePicturePaths`: the pattern cut after the first separator and after the first group. */
  lemma PicturePathsPieces()
    ensures PicturePaths == "~/{Downloads," + "Pictures}/*." + "{jpg,gif,png}"
  {
  }

  /** Spelling only, for the proof of `ExamplePicturePaths`: the three pieces spelled character by character. */
  lemma PiecesSpellPicturePaths(s: string)
    requires s == "~/{Downloads," + "Pictures}/*." + "{jpg,gif,png}"
    ensures PicturePathsChars(s)
  {
  }

  /** Spelling only, for the proof of `ExamplePicturePaths`: the character-by-character spelling puts the words and the punctuation where the parser finds them. */
  lemma CharsGiveShape(s: string)
    requires PicturePathsChars(s)
    ensures PicturePathsShape(s)
  {
    assert s[0..2] == "~/" by { assert s[0..2] == [s[0], s[1]]; }
    assert s[3..12] == "Downloads" by { assert s[3..12] == [s[3], s[4], s[5], s[6], s[7], s[8], s[9], s[10], s[11]]; }
    assert s[13..21] == "Pictures" by { assert s[13..21] == [s[13], s[14], s[15], s[16], s[17], s[18], s[19], s[20]]; }
    assert s[22..25] == "/*." by { assert s[22..25] == [s[22], s[23], s[24]]; }
    assert s[26..29] == "jpg" by { assert s[26..29] == [s[26], s[27], s[28]]; }
    assert s[30..33] == "gif" by { assert s[30..33] == [s[30], s[31], s[32]]; }
    assert s[34..37] == "png" by { assert s[34..37] == [s[34], s[35], s[36]]; }
  }

  /** The words of `PicturePaths` hold no brace or separator. */
  lemma PicturePathsWords()
    ensures AvoidsFrom("~/", 0, OuterStops) && AvoidsFrom("/*.", 0, OuterStops)
    ensures AvoidsFrom("Downloads", 0, InnerStops) && AvoidsFrom("Pictures", 0, InnerStops)
    ensures AvoidsFrom("jpg", 0, InnerStops) && AvoidsFrom("gif", 0, InnerStops) && AvoidsFrom("png", 0, InnerStops)
  {
    FolderWords();
    ExtensionWords();
  }

  /** Spelling only, for the proof of `ExamplePicturePaths`: the folder names hold no brace or separator. */
  lemma FolderWords()
    ensures AvoidsFrom("Downloads", 0, InnerStops) && AvoidsFrom("Pictures", 0, InnerStops)
  {
  }

  /** Spelling only, for the proof of `ExamplePicturePaths`: the extensions hold no brace or separator. */
  lemma ExtensionWords()
    ensures AvoidsFrom("jpg", 0, InnerStops) && AvoidsFrom("gif", 0, InnerStops) && AvoidsFrom("png", 0, InnerStops)
  {
  }

  lemma PicturePathsFolders(s: string)
    requires PicturePathsShape(s)
    ensures ExprLoop(s, 3, [], 0) == Some(Parsed(["Downloads", "Pictures"], 22))
  {
    FolderWords();
    ExprWord(s, 3, "Downloads", [], 0);
    ExprSeparator(s, 12, [] + ["Downloads"], 0);
    ExprWord(s, 13, "Pictures", [] + ["Downloads"], 1);
    assert [] + ["Downloads"] + ["Pictures"] == ["Downloads", "Pictures"];
    ExprClose(s, 21, ["Downloads", "Pictures"], 1);
  }

  lemma PicturePathsExtensions(s: string)
    requires PicturePathsShape(s)
    ensures ExprLoop(s, 26, [], 0) == Some(Parsed(["jpg", "gif", "png"], 38))
  {
    ExtensionWords();
    ExprWord(s, 26, "jpg", [], 0);
    assert [] + ["jpg"] == ["jpg"];
    ExprSeparator(s, 29, ["jpg"], 0);
    ExprWord(s, 30, "gif", ["jpg"], 1);
    assert ["jpg"] + ["gif"] == ["jpg", "gif"];
    ExprSeparator(s, 33, ["jpg", "gif"], 1);
    ExprWord(s, 34, "png", ["jpg", "gif"], 2);
    assert ["jpg", "gif"] + ["png"] == ["jpg", "gif", "png"];
    ExprClose(s, 37, ["jpg", "gif", "png"], 2);
  }

  lemma PicturePathsFolderNames()
    ensures Product(["~/"], ["Downloads", "Pictures"]) == ["~/Downloads", "~/Pictures"]
    ensures Product(["~/Downloads", "~/Pictures"], ["/*."]) == ["~/Downloads/*.", "~/Pictures/*."]
  {
    HomeFolders();
    FolderPrefixes();
  }

  lemma HomeFolders()
    ensures Product(["~/"], ["Downloads", "Pictures"]) == ["~/Downloads", "~/Pictures"]
  {
    ProductOfOne("~/", ["Downloads", "Pictures"]);
    assert "~/" + "Downloads" == "~/Downloads";
    assert "~/" + "Pictures" == "~/Pictures";
  }

  lemma FolderPrefixes()
    ensures Product(["~/Downloads", "~/Pictures"], ["/*."]) == ["~/Downloads/*.", "~/Pictures/*."]
  {
    ProductOfTwo("~/Downloads", "~/Pictures", ["/*."]);
    assert "~/Downloads" + "/*." == "~/Downloads/*.";
    assert "~/Pictures" + "/*." == "~/Pictures/*.";
  }

  /** Any string laid out like `PicturePaths` expands to its six paths. */
  lemma PicturePathsFolderStep(s: string)
    requires PicturePathsShape(s)
    ensures TopLoop(s, 0, [""]) == TopLoop(s, 22, ["~/Downloads", "~/Pictures"])
  {
    PicturePathsWords();
    TopWord(s, 0, "~/", [""]);
    ProductUnitLeft(["~/"]);
    PicturePathsFolders(s);
    TopGroup(s, 2, ["~/"], Parsed(["Downloads", "Pictures"], 22));
    PicturePathsFolderNames();
  }

  lemma PicturePathsExtensionStep(s: string)
    requires PicturePathsShape(s)
    ensures TopLoop(s, 22, ["~/Downloads", "~/Pictures"])
      == TopLoop(s, 38, Product(["~/Downloads/*.", "~/Pictures/*."], ["jpg", "gif", "png"]))
  {
    PicturePathsWords();
    PicturePathsFolderNames();
    TopWord(s, 22, "/*.", ["~/Downloads", "~/Pictures"]);
    PicturePathsExtensions(s);
    TopGroup(s, 25, ["~/Downloads/*.", "~/Pictures/*."], Parsed(["jpg", "gif", "png"], 38));
  }

  lemma PicturePathsProduct()
    ensures Product(["~/Downloads/*.", "~/Pictures/*."], ["jpg", "gif", "png"]) == [
      "~/Downloads/*.jpg", "~/Downloads/*.gif", "~/Downloads/*.png",
      "~/Pictures/*.jpg", "~/Pictures/*.gif", "~/Pictures/*.png"]
  {
    ProductOfTwo("~/Downloads/*.", "~/Pictures/*.", ["jpg", "gif", "png"]);
    PrefixedThree("~/Downloads/*.", "jpg", "gif", "png");
    PrefixedThree("~/Pictures/*.", "jpg", "gif", "png");
    assert "~/Downloads/*." + "jpg" == "~/Downloads/*.jpg";
    assert "~/Downloads/*." + "gif" == "~/Downloads/*.gif";
    assert "~/Downloads/*." + "png" == "~/Downloads/*.png";
    assert "~/Pictures/*." + "jpg" == "~/Pictures/*.jpg";
    assert "~/Pictures/*." + "gif" == "~/Pictures/*.gif";
    assert "~/Pictures/*." + "png" == "~/Pictures/*.png";
  }

  lemma PicturePathsExpansion(s: string)
    requires PicturePathsShape(s)
    ensures Expand(s) == Some([
      "~/Downloads/*.jpg", "~/Downloads/*.gif", "~/Downloads/*.png",
      "~/Pictures/*.jpg", "~/Pictures/*.gif", "~/Pictures/*.png"])
  {
    PicturePathsFolderStep(s);
    PicturePathsExtensionStep(s);
    PicturePathsProduct();
  }

  /** The pattern `PicturePaths` expands to six paths, each folder with each extension, folder-major. */
  lemma ExamplePicturePaths()
    ensures Expand(PicturePaths) == Some([
      "~/Downloads/*.jpg", "~/Downloads/*.gif", "~/Downloads/*.png",
      "~/Pictures/*.jpg", "~/Pictures/*.gif", "~/Pictures/*.png"])
  {
    PicturePathsLayout();
    PicturePathsExpansion(PicturePaths);
  }

  // ---------------------------------------------------------------------------
  // The parser as the source runs it: while loops over a shared cursor
  // ---------------------------------------------------------------------------

  /** `combine`: nested loops pushing every `left + right` onto a fresh list. */
  method Combine(left: seq<string>, right: seq<string>) returns (res: seq<string>)
    ensures res == Product(left, right)
  {
    res := [];
    for i := 0 to |left|
      invariant res == Product(left[..i], right)
    {
      for j := 0 to |right|
        invariant res == Product(left[..i], right) + Prefixed(left[i], right[..j])
      {
        assert Prefixed(left[i], right[..j + 1]) == Prefixed(left[i], right[..j]) + [left[i] + right[j]];
        res := res + [left[i] + right[j]];
      }
      assert right[..|right|] == right;
      assert left[..i + 1][..i] == left[..i];
    }
    assert left[..|left|] == left;
  }

  /** The state `parse` shares with its inner functions: the input and the cursor `pos`. */
  class BraceParser {
    const str: string
    var pos: nat

    constructor(s: string)
      ensures str == s && pos == 0
    {
      str := s;
      pos := 0;
    }

    /** `readUntil`: grows the word one character at a time, advancing the cursor. */
    method ReadUntil(stops: seq<char>) returns (res: string)
      requires pos <= |str|
      modifies this
      ensures (res, pos) == ReadWord(str, old(pos), stops)
    {
      res := "";
      while pos < |str| && str[pos] !in stops
        invariant old(pos) <= pos <= |str|
        invariant res == str[old(pos)..pos]
        invariant forall i :: old(pos) <= i < pos ==> str[i] !in stops
        decreases |str| - pos
      {
        res := res + [str[pos]];
        pos := pos + 1;
      }
      ReadWordEndsAt(str, old(pos), stops, pos);
    }

    /** `parseExpr`, called just after a `{`; it returns only if the group closes. */
    method ParseExpr() returns (items: seq<string>)
      requires pos <= |str| && ExprLoop(str, pos, [], 0).Some?
      modifies this
      ensures Parsed(items, pos) == ExprLoop(str, old(pos), [], 0).value
      decreases |str| - pos, 1
    {
      ghost var result := ExprLoop(str, pos, [], 0).value;
      items := [];
      var sepCount := 0;
      while str[pos] != CloseBrace
        invariant old(pos) <= pos < |str|
        invariant ExprLoop(str, pos, items, sepCount) == Some(result)
        decreases |str| - pos
      {
        if str[pos] == Separator {
          pos := pos + 1;
          sepCount := sepCount + 1;
        } else {
          var part := ParseExprPart();
          items := items + part;
        }
      }
      ExprClose(str, pos, items, sepCount);
      pos := pos + 1;
      if |items| < sepCount + 1 {
        items := items + [""];
      }
    }

    /** `parseExprPart`: one alternative, up to the next `,` or `}`. */
    method ParseExprPart() returns (items: seq<string>)
      requires pos <= |str| && PartLoop(str, pos, [""]).Some?
      modifies this
      ensures Parsed(items, pos) == PartLoop(str, old(pos), [""]).value
      decreases |str| - pos, 0
    {
      ghost var result := PartLoop(str, pos, [""]).value;
      items := [""];
      while str[pos] != Separator && str[pos] != CloseBrace
        invariant old(pos) <= pos < |str|
        invariant PartLoop(str, pos, items) == Some(result)
        decreases |str| - pos
      {
        if str[pos] != OpenBrace {
          var word := ReadUntil(InnerStops);
          items := Combine(items, [word]);
        } else {
          pos := pos + 1;
          var group := ParseExpr();
          items := Combine(items, group);
        }
      }
    }

    /** `parse`: the top-level loop, run from the start of the string to its end. */
    method Parse() returns (items: seq<string>)
      requires pos == 0 && Expand(str).Some?
      modifies this
      ensures Some(items) == Expand(str) && pos == |str|
    {
      items := [""];
      while pos < |str|
        invariant pos <= |str|
        invariant TopLoop(str, pos, items) == Expand(str)
        decreases |str| - pos
      {
        if str[pos] != OpenBrace {
          var word := ReadUntil(OuterStops);
          items := Combine(items, [word]);
        } else {
          pos := pos + 1;
          var group := ParseExpr();
          items := Combine(items, group);
        }
      }
    }
  }

  /** `expandBraces` on balanced input: the list of all expansions. */
  method ExpandBraces(s: string) returns (items: seq<string>)
    requires Balanced(s)
    ensures Expand(s) == Some(items) && |items| >= 1
  {
    ExpandReturnsIffBalanced(s);
    ExpandNonEmpty(s);
    var parser := new BraceParser(s);
    items := parser.Parse();
  }
}
