/**
 * `extractRanges` (task/10-katas-1-tasks.js): the compact text of a list of
 * integers, where every run of three or more consecutive values is written
 * `first-last` and every other value on its own, the items joined by commas.
 *
 * The source is a tail recursion with a string accumulator; it is modelled by
 * `Extract` below. `Tokens` is an independent, structured view of the same
 * output, `Decode` reads the text back, and the lemmas connect the three.
 */
module RangeExtraction {
  import opened Wrappers
  import opened Strings

  /** What one step of `extract` yields: the text of one item and how many numbers it used. */
  datatype Piece = Piece(val: string, next: nat)

  /**
   * `startsWithRange`: the first three numbers are consecutive. With fewer
   * than three numbers a missing element is `undefined`, the subtraction gives
   * NaN and the comparison is false.
   */
  predicate StartsWithRange(nums: seq<int>)
  {
    |nums| >= 3 && nums[0] == nums[1] - 1 && nums[1] == nums[2] - 1
  }

  /**
   * `nums.findIndex((x, i, arr) => arr[i + 1] - arr[i] !== 1)`, searching from
   * position `i`: the first position whose successor is not one more than it.
   * The last position always qualifies, because `arr[i + 1]` is `undefined` there.
   */
  function RunEnd(nums: seq<int>, i: nat): (e: nat)
    requires i < |nums|
    ensures i <= e < |nums|
    ensures forall j :: i <= j < e ==> nums[j + 1] == nums[j] + 1
    ensures e + 1 == |nums| || nums[e + 1] != nums[e] + 1
    decreases |nums| - i
  {
    if i + 1 == |nums| || nums[i + 1] - nums[i] != 1 then i else RunEnd(nums, i + 1)
  }

  /** `extractSingle`: the first number on its own. */
  function ExtractSingle(nums: seq<int>): (p: Piece)
    requires |nums| > 0
    ensures p.next == 1 && ParseInt(p.val) == Some(nums[0])
  {
    IntToStringRoundTrip(nums[0]);
    Piece(IntToString(nums[0]), 1)
  }

  /** `extractRange`: the run of consecutive values at the front, as `first-last`. */
  function ExtractRange(nums: seq<int>): (p: Piece)
    requires StartsWithRange(nums)
    ensures 3 <= p.next <= |nums|
    ensures forall j :: 0 <= j < p.next - 1 ==> nums[j + 1] == nums[j] + 1
    ensures p.next == |nums| || nums[p.next] != nums[p.next - 1] + 1
    ensures p.val == IntToString(nums[0]) + "-" + IntToString(nums[p.next - 1])
  {
    var i := RunEnd(nums, 0);
    Piece(IntToString(nums[0]) + "-" + IntToString(nums[i]), i + 1)
  }

  /** `extract(acc, nums)`: appends the items of `nums` to the text `acc`. */
  function Extract(acc: string, nums: seq<int>): string
    decreases |nums|
  {
    if |nums| == 0 then acc
    else
      var result := FirstPiece(nums);
      if |acc| == 0 then Extract(result.val, nums[result.next..])
      else Extract(acc + "," + result.val, nums[result.next..])
  }

  /** `extractRanges(nums)`. */
  function ExtractRanges(nums: seq<int>): string
  {
    Extract("", nums)
  }

  // ---------------------------------------------------------------------------
  // The items as values

  /** One comma-separated item of the output. */
  datatype Token = Single(n: int) | Range(first: int, last: int)

  /** The inclusive interval `[lo..hi]`. */
  function Interval(lo: int, hi: int): (s: seq<int>)
    ensures |s| == if lo <= hi then hi - lo + 1 else 0
    ensures forall j :: 0 <= j < |s| ==> s[j] == lo + j
    decreases hi - lo
  {
    if lo > hi then [] else [lo] + Interval(lo + 1, hi)
  }

  /** The numbers an item stands for. */
  function TokenValues(t: Token): seq<int>
  {
    match t
    case Single(n) => [n]
    case Range(first, last) => Interval(first, last)
  }

  function Values(ts: seq<Token>): seq<int>
  {
    if ts == [] then [] else TokenValues(ts[0]) + Values(ts[1..])
  }

  function TokenText(t: Token): string
  {
    match t
    case Single(n) => IntToString(n)
    case Range(first, last) => IntToString(first) + "-" + IntToString(last)
  }

  function Texts(ts: seq<Token>): (r: seq<string>)
    ensures |r| == |ts|
    ensures forall i :: 0 <= i < |ts| ==> r[i] == TokenText(ts[i])
  {
    if ts == [] then [] else [TokenText(ts[0])] + Texts(ts[1..])
  }

  /** The items `extract` produces for `nums`, one per step. */
  function Tokens(nums: seq<int>): seq<Token>
    decreases |nums|
  {
    if |nums| == 0 then []
    else if StartsWithRange(nums) then
      var e := RunEnd(nums, 0);
      [Range(nums[0], nums[e])] + Tokens(nums[e + 1..])
    else [Single(nums[0])] + Tokens(nums[1..])
  }

  /**
   * `ts` writes `nums` greedily from the left: every item that is a range
   * stands for a run of at least three consecutive values that cannot be
   * extended, and every single value does not start three consecutive values.
   */
  ghost predicate Greedy(nums: seq<int>, ts: seq<Token>)
    decreases |ts|
  {
    if ts == [] then nums == []
    else match ts[0]
      case Single(x) =>
        && |nums| >= 1 && nums[0] == x
        && !(|nums| >= 3 && nums[1] == x + 1 && nums[2] == x + 2)
        && Greedy(nums[1..], ts[1..])
      case Range(a, b) =>
        var n := b - a + 1;
        && 3 <= n <= |nums|
        && nums[..n] == Interval(a, b)
        && (n == |nums| || nums[n] != b + 1)
        && Greedy(nums[n..], ts[1..])
  }

  lemma {:induction false} RunValues(nums: seq<int>, e: nat)
    requires e < |nums|
    requires forall j :: 0 <= j < e ==> nums[j + 1] == nums[j] + 1
    ensures forall j :: 0 <= j <= e ==> nums[j] == nums[0] + j
  {
    if e > 0 {
      RunValues(nums, e - 1);
      assert nums[e] == nums[e - 1] + 1;
    }
  }

  /** A consecutive run equals the interval between its ends. */
  lemma RunIsInterval(nums: seq<int>, e: nat)
    requires e < |nums|
    requires forall j :: 0 <= j < e ==> nums[j + 1] == nums[j] + 1
    ensures nums[..e + 1] == Interval(nums[0], nums[e])
  {
    RunValues(nums, e);
  }

  /** The items of `Tokens` are the maximal runs of `nums`, chosen greedily. */
  lemma {:induction false} TokensAreGreedy(nums: seq<int>)
    ensures Greedy(nums, Tokens(nums))
    decreases |nums|
  {
    if |nums| > 0 {
      var ts := Tokens(nums);
      if StartsWithRange(nums) {
        var e := RunEnd(nums, 0);
        RunIsInterval(nums, e);
        TokensAreGreedy(nums[e + 1..]);
        assert ts[1..] == Tokens(nums[e + 1..]);
      } else {
        TokensAreGreedy(nums[1..]);
        assert ts[1..] == Tokens(nums[1..]);
      }
    }
  }

  /** Only one list of items writes `nums` greedily. */
  lemma {:induction false} GreedyIsUnique(nums: seq<int>, ts: seq<Token>)
    requires Greedy(nums, ts)
    ensures ts == Tokens(nums)
    decreases |ts|
  {
    if ts != [] {
      match ts[0]
      case Single(x) =>
        GreedyIsUnique(nums[1..], ts[1..]);
        assert ts == [ts[0]] + ts[1..];
      case Range(a, b) =>
        var n := b - a + 1;
        MaximalRunIsRange(nums, a, b);
        GreedyIsUnique(nums[n..], ts[1..]);
        assert ts == [ts[0]] + ts[1..];
    }
  }

  lemma MaximalRunIsRange(nums: seq<int>, a: int, b: int)
    requires 3 <= b - a + 1 <= |nums|
    requires nums[..b - a + 1] == Interval(a, b)
    requires b - a + 1 == |nums| || nums[b - a + 1] != b + 1
    ensures StartsWithRange(nums) && nums[0] == a
    ensures RunEnd(nums, 0) == b - a && nums[b - a] == b
  {
    IntervalPrefix(nums, a, b);
    RunEndOfInterval(nums, b - a + 1);
  }

  /** A prefix equal to the interval `[a..b]` holds `a + j` at each index `j`. */
  lemma IntervalPrefix(nums: seq<int>, a: int, b: int)
    requires 3 <= b - a + 1 <= |nums| && nums[..b - a + 1] == Interval(a, b)
    ensures forall j :: 0 <= j < b - a + 1 ==> nums[j] == nums[0] + j
    ensures nums[0] == a && nums[b - a] == b
  {
    var n := b - a + 1;
    forall j | 0 <= j < n ensures nums[j] == a + j {
      assert nums[j] == nums[..n][j];
    }
  }

  lemma RunEndOfInterval(nums: seq<int>, n: nat)
    requires 1 <= n <= |nums|
    requires forall j :: 0 <= j < n ==> nums[j] == nums[0] + j
    requires n == |nums| || nums[n] != nums[n - 1] + 1
    ensures RunEnd(nums, 0) == n - 1
  {
  }

  /** The items of a greedy writing stand for the numbers written, in order. */
  lemma {:induction false} GreedyCovers(nums: seq<int>, ts: seq<Token>)
    requires Greedy(nums, ts)
    ensures Values(ts) == nums
    decreases |ts|
  {
    if ts != [] {
      match ts[0]
      case Single(x) =>
        GreedyCovers(nums[1..], ts[1..]);
        CoversSingle(nums, ts, x);
      case Range(a, b) =>
        GreedyCovers(nums[b - a + 1..], ts[1..]);
        CoversRange(nums, ts, a, b);
    }
  }

  lemma CoversSingle(nums: seq<int>, ts: seq<Token>, x: int)
    requires ts != [] && ts[0] == Single(x) && |nums| >= 1 && nums[0] == x
    requires Values(ts[1..]) == nums[1..]
    ensures Values(ts) == nums
  {
    assert nums == [x] + nums[1..];
  }

  lemma CoversRange(nums: seq<int>, ts: seq<Token>, a: int, b: int)
    requires ts != [] && ts[0] == Range(a, b) && 0 <= b - a + 1 <= |nums|
    requires nums[..b - a + 1] == Interval(a, b)
    requires Values(ts[1..]) == nums[b - a + 1..]
    ensures Values(ts) == nums
  {
    ValuesCons(ts);
    SplitAt(nums, b - a + 1);
  }

  lemma ValuesCons(ts: seq<Token>)
    requires ts != []
    ensures Values(ts) == TokenValues(ts[0]) + Values(ts[1..])
  {
  }

  lemma SplitAt(nums: seq<int>, n: nat)
    requires n <= |nums|
    ensures nums[..n] + nums[n..] == nums
  {
  }

  /** The piece one step of `extract` takes off the front of `nums`. */
  function FirstPiece(nums: seq<int>): (p: Piece)
    requires |nums| > 0
    ensures 1 <= p.next <= |nums|
    ensures Tokens(nums) == [FirstToken(nums)] + Tokens(nums[p.next..])
    ensures p.val == TokenText(FirstToken(nums)) && p.val != ""
  {
    if StartsWithRange(nums) then ExtractRange(nums) else ExtractSingle(nums)
  }

  function FirstToken(nums: seq<int>): Token
    requires |nums| > 0
  {
    if StartsWithRange(nums) then Range(nums[0], nums[RunEnd(nums, 0)]) else Single(nums[0])
  }

  /** Each step of `extract` emits the text of the next item of `Tokens`, so the accumulator ends as their comma-join. */
  lemma ExtractAccumulates(acc: string, nums: seq<int>)
    ensures Extract(acc, nums) ==
      if acc == "" then JoinWith(Texts(Tokens(nums)), ",")
      else if nums == [] then acc
      else acc + "," + JoinWith(Texts(Tokens(nums)), ",")
  {
    if acc != "" {
      ExtractAppends(acc, nums);
    } else if nums != [] {
      var result := FirstPiece(nums);
      ExtractStep(acc, nums);
      ExtractAppends(result.val, nums[result.next..]);
      JoinStep(nums);
    }
  }

  /** With a non-empty accumulator, `extract` adds a comma and then the items. */
  lemma {:induction false} ExtractAppends(acc: string, nums: seq<int>)
    requires acc != ""
    ensures Extract(acc, nums) == if nums == [] then acc else acc + "," + JoinWith(Texts(Tokens(nums)), ",")
    decreases |nums|
  {
    if nums != [] {
      var result := FirstPiece(nums);
      var rest := nums[result.next..];
      ExtractStep(acc, nums);
      ExtractAppends(acc + "," + result.val, rest);
      JoinStep(nums);
      if rest != [] {
        CommaAssoc(acc, result.val, JoinWith(Texts(Tokens(rest)), ","));
      }
    }
  }

  /** One step of `extract`. */
  lemma ExtractStep(acc: string, nums: seq<int>)
    requires |nums| > 0
    ensures Extract(acc, nums) ==
      Extract(if acc == "" then FirstPiece(nums).val else acc + "," + FirstPiece(nums).val, nums[FirstPiece(nums).next..])
  {
  }

  /** The comma-join of the items is the first piece's text, then a comma and the join of the rest, if any. */
  lemma JoinStep(nums: seq<int>)
    requires |nums| > 0
    ensures var rest := nums[FirstPiece(nums).next..];
      JoinWith(Texts(Tokens(nums)), ",") ==
        if rest == [] then FirstPiece(nums).val else FirstPiece(nums).val + "," + JoinWith(Texts(Tokens(rest)), ",")
  {
    FirstText(nums);
    JoinCons(FirstPiece(nums).val, Texts(Tokens(nums[FirstPiece(nums).next..])), ",");
  }

  lemma CommaAssoc(a: string, b: string, c: string)
    ensures a + "," + b + "," + c == a + "," + (b + "," + c)
  {
  }

  /** The texts of the items are the first piece's text followed by the texts of what it leaves. */
  lemma FirstText(nums: seq<int>)
    requires |nums| > 0
    ensures Texts(Tokens(nums)) == [FirstPiece(nums).val] + Texts(Tokens(nums[FirstPiece(nums).next..]))
    ensures nums[FirstPiece(nums).next..] == [] <==> Texts(Tokens(nums[FirstPiece(nums).next..])) == []
  {
    var rest := nums[FirstPiece(nums).next..];
    assert Texts([FirstToken(nums)] + Tokens(rest))[1..] == Texts(Tokens(rest)) by {
      assert ([FirstToken(nums)] + Tokens(rest))[1..] == Tokens(rest);
    }
    if rest != [] {
      assert Tokens(rest) != [];
    }
  }

  lemma JoinCons(first: string, rest: seq<string>, sep: string)
    ensures JoinWith([first] + rest, sep) == if rest == [] then first else first + sep + JoinWith(rest, sep)
  {
    assert ([first] + rest)[1..] == rest;
  }

  /** `extractRanges` joins the texts of the greedy items with single commas. */
  lemma ExtractRangesJoins(nums: seq<int>)
    ensures ExtractRanges(nums) == JoinWith(Texts(Tokens(nums)), ",")
    ensures nums == [] <==> ExtractRanges(nums) == ""
  {
    ExtractAccumulates("", nums);
    if nums != [] {
      var ts := Tokens(nums);
      assert ts != [] && TokenText(ts[0]) != "";
      JoinWithNonEmpty(Texts(ts), ",");
    }
  }

  lemma JoinWithNonEmpty(parts: seq<string>, sep: string)
    requires |parts| > 0 && parts[0] != ""
    ensures JoinWith(parts, sep) != ""
  {
  }

  // ---------------------------------------------------------------------------
  // Reading the text back

  /** Reads one item: `n` stands for `[n]`, `a-b` for the inclusive interval `[a..b]`. */
  function DecodeItem(t: string): Option<seq<int>>
  {
    if |t| == 0 then None
    else if '-' in t[1..] then
      var k := 1 + IndexOf(t[1..], '-');
      match (ParseInt(t[..k]), ParseInt(t[k + 1..]))
      case (Some(a), Some(b)) => Some(Interval(a, b))
      case _ => None
    else
      match ParseInt(t)
      case Some(n) => Some([n])
      case None => None
  }

  function DecodeItems(items: seq<string>): Option<seq<int>>
  {
    if items == [] then Some([])
    else
      match (DecodeItem(items[0]), DecodeItems(items[1..]))
      case (Some(first), Some(rest)) => Some(first + rest)
      case _ => None
  }

  /** Reads a whole text: the empty text is the empty list, otherwise the comma-separated items in order. */
  function Decode(s: string): Option<seq<int>>
  {
    if s == "" then Some([]) else DecodeItems(Split(s, ','))
  }

  lemma DecodeTokenText(t: Token)
    ensures DecodeItem(TokenText(t)) == Some(TokenValues(t))
  {
    match t
    case Single(n) =>
      IntToStringRoundTrip(n);
    case Range(a, b) =>
      var first, last := IntToString(a), IntToString(b);
      var s := first + "-" + last;
      assert s[1..] == first[1..] + ['-'] + last;
      IndexOfAfter(first[1..], '-', last);
      assert s[..|first|] == first;
      assert s[|first| + 1..] == last;
      IntToStringRoundTrip(a);
      IntToStringRoundTrip(b);
  }

  lemma {:induction false} DecodeTexts(ts: seq<Token>)
    ensures DecodeItems(Texts(ts)) == Some(Values(ts))
  {
    if ts != [] {
      DecodeTokenText(ts[0]);
      DecodeTexts(ts[1..]);
      assert Texts(ts)[1..] == Texts(ts[1..]);
    }
  }

  /** Reading back the output of `extractRanges` gives the input list. */
  lemma ExtractRangesRoundTrip(nums: seq<int>)
    ensures Decode(ExtractRanges(nums)) == Some(nums)
  {
    ExtractRangesJoins(nums);
    var ts := Tokens(nums);
    TokensAreGreedy(nums);
    GreedyCovers(nums, ts);
    if nums != [] {
      forall i | 0 <= i < |ts| ensures ',' !in Texts(ts)[i] {
        match ts[i]
        case Single(n) =>
        case Range(a, b) =>
          assert TokenText(ts[i]) == IntToString(a) + "-" + IntToString(b);
      }
      SplitJoin(Texts(ts), ',');
      DecodeTexts(ts);
    }
  }

  /** The examples documented beside `extractRanges`. */
  lemma ExampleWholeRun()
    ensures ExtractRanges([0, 1, 2, 3, 4, 5]) == "0-5"
  {
    WholeRunPiece();
    assert [0, 1, 2, 3, 4, 5][6..] == [];
  }

  lemma WholeRunPiece()
    ensures FirstPiece([0, 1, 2, 3, 4, 5]) == Piece("0-5", 6)
  {
    var nums := [0, 1, 2, 3, 4, 5];
    assert RunEnd(nums, 0) == 5 by {
      assert RunEnd(nums, 5) == 5;
      assert RunEnd(nums, 3) == RunEnd(nums, 4);
    }
    assert IntToString(0) + "-" + IntToString(5) == "0-5" by {
      assert IntToString(0) == "0" && IntToString(5) == "5";
    }
  }

  lemma ExampleSinglesOnly()
    ensures ExtractRanges([1, 4, 5]) == "1,4,5"
  {
    assert Extract("", [1, 4, 5]) == Extract("1", [4, 5]);
    assert Extract("1", [4, 5]) == Extract("1,4", [5]);
  }

  lemma ExampleMixed()
    ensures ExtractRanges([0, 1, 2, 5, 7, 8, 9]) == "0-2,5,7-9"
  {
    MixedFirstRange();
    MixedSingle();
    MixedLastRange();
  }

  lemma MixedFirstRange()
    ensures Extract("", [0, 1, 2, 5, 7, 8, 9]) == Extract("0-2", [5, 7, 8, 9])
  {
    MixedFirstPiece();
    assert [0, 1, 2, 5, 7, 8, 9][3..] == [5, 7, 8, 9];
  }

  lemma MixedFirstPiece()
    ensures FirstPiece([0, 1, 2, 5, 7, 8, 9]) == Piece("0-2", 3)
  {
    var nums := [0, 1, 2, 5, 7, 8, 9];
    assert RunEnd(nums, 0) == 2 by {
      assert nums[3] - nums[2] != 1;
      assert RunEnd(nums, 2) == 2;
    }
    assert IntToString(0) + "-" + IntToString(2) == "0-2" by {
      assert IntToString(0) == "0" && IntToString(2) == "2";
    }
  }

  lemma MixedSingle()
    ensures Extract("0-2", [5, 7, 8, 9]) == Extract("0-2,5", [7, 8, 9])
  {
    assert FirstPiece([5, 7, 8, 9]) == Piece("5", 1);
    assert [5, 7, 8, 9][1..] == [7, 8, 9];
  }

  lemma MixedLastRange()
    ensures Extract("0-2,5", [7, 8, 9]) == "0-2,5,7-9"
  {
    assert RunEnd([7, 8, 9], 0) == 2;
    assert FirstPiece([7, 8, 9]) == Piece("7-9", 3);
    assert Extract("0-2,5", [7, 8, 9]) == Extract("0-2,5,7-9", []);
  }

  lemma ExamplePairsStaySeparate()
    ensures ExtractRanges([1, 2, 4, 5]) == "1,2,4,5"
  {
    PairsFirst();
    PairsSecond();
    PairsThird();
    assert Extract("1,2,4", [5]) == "1,2,4,5";
  }

  lemma PairsFirst()
    ensures Extract("", [1, 2, 4, 5]) == Extract("1", [2, 4, 5])
  {
    assert FirstPiece([1, 2, 4, 5]) == Piece("1", 1);
    assert [1, 2, 4, 5][1..] == [2, 4, 5];
  }

  lemma PairsSecond()
    ensures Extract("1", [2, 4, 5]) == Extract("1,2", [4, 5])
  {
    assert FirstPiece([2, 4, 5]) == Piece("2", 1);
    assert [2, 4, 5][1..] == [4, 5];
  }

  lemma PairsThird()
    ensures Extract("1,2", [4, 5]) == Extract("1,2,4", [5])
  {
    assert FirstPiece([4, 5]) == Piece("4", 1);
    assert [4, 5][1..] == [5];
  }

  lemma ExampleEmpty()
    ensures ExtractRanges([]) == ""
  {
  }
}
