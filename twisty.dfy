/**
 * The console-to-markdown converter: each prompt line of a console log
 * whose command is not blank becomes a collapsible <details> block whose
 * summary is the command and whose body is the output up to the next
 * prompt.
 */
module Twisty {
  import opened Wrappers

  /** The characters for which Python's str.isspace holds. */
  predicate IsSpace(ch: char) {
    ch == ' ' || ('\t' <= ch <= '\r') || ('\U{1C}' <= ch <= '\U{1F}') || ch == '\U{85}' || ch == '\U{A0}'
    || ch == '\U{1680}' || ('\U{2000}' <= ch <= '\U{200A}') || ch == '\U{2028}' || ch == '\U{2029}'
    || ch == '\U{202F}' || ch == '\U{205F}' || ch == '\U{3000}'
  }

  predicate IsBlank(s: string) {
    forall i :: 0 <= i < |s| ==> IsSpace(s[i])
  }

  /** The end of s[..j] once its trailing whitespace is dropped. */
  function TrailingStop(s: string, j: nat): (e: nat)
    requires j <= |s|
    ensures e <= j
    ensures forall k :: e <= k < j ==> IsSpace(s[k])
    ensures e == 0 || !IsSpace(s[e - 1])
  {
    if j == 0 || !IsSpace(s[j - 1]) then j else TrailingStop(s, j - 1)
  }

  /** The first position at or after i that is not whitespace, or |s|. */
  function LeadingStop(s: string, i: nat): (b: nat)
    requires i <= |s|
    ensures i <= b <= |s|
    ensures forall k :: i <= k < b ==> IsSpace(s[k])
    ensures b == |s| || !IsSpace(s[b])
    decreases |s| - i
  {
    if i == |s| || !IsSpace(s[i]) then i else LeadingStop(s, i + 1)
  }

  /** str.rstrip(): s without its trailing whitespace. */
  function RStrip(s: string): string {
    s[..TrailingStop(s, |s|)]
  }

  /** str.lstrip(): s without its leading whitespace. */
  function LStrip(s: string): string {
    s[LeadingStop(s, 0)..]
  }

  /** str.strip(). */
  function Strip(s: string): string {
    LStrip(RStrip(s))
  }

  /** str.strip leaves nothing exactly when the string is all whitespace. */
  lemma StripEmptyIffBlank(s: string)
    ensures Strip(s) == [] <==> IsBlank(s)
  {
    var e := TrailingStop(s, |s|);
    var r := s[..e];
    var b := LeadingStop(r, 0);
    assert forall k :: 0 <= k < e ==> r[k] == s[k];
    if b < |r| {
      assert !IsSpace(s[b]);
    }
  }

  /** pat occurs in s at position j. */
  predicate MatchAt(s: string, pat: string, j: int) {
    0 <= j && j + |pat| <= |s| && s[j..j + |pat|] == pat
  }

  /** The first position at or after from where pat occurs in s. */
  function FindFrom(s: string, pat: string, from: nat): (r: Option<nat>)
    ensures r.Some? ==> from <= r.value && r.value + |pat| <= |s|
    decreases |s| - from
  {
    if from + |pat| > |s| then None
    else if s[from..from + |pat|] == pat then Some(from)
    else FindFrom(s, pat, from + 1)
  }

  /** FindFrom finds the first occurrence at or after from, and None means there is none. */
  lemma {:induction false} FindFromSpec(s: string, pat: string, from: nat)
    ensures var r := FindFrom(s, pat, from);
      && (r.Some? ==> from <= r.value && MatchAt(s, pat, r.value))
      && (r.Some? ==> forall j :: from <= j < r.value ==> !MatchAt(s, pat, j))
      && (r.None? ==> forall j :: from <= j ==> !MatchAt(s, pat, j))
    decreases |s| - from
  {
    if from + |pat| <= |s| && s[from..from + |pat|] != pat {
      FindFromSpec(s, pat, from + 1);
    }
  }

  /** Python's `pat in s`. */
  predicate Contains(s: string, pat: string) {
    FindFrom(s, pat, 0).Some?
  }

  /** `pat in s` holds exactly when pat occurs somewhere in s. */
  lemma ContainsIffMatch(s: string, pat: string)
    ensures Contains(s, pat) <==> exists j :: MatchAt(s, pat, j)
  {
    FindFromSpec(s, pat, 0);
  }

  /** The empty string occurs in every string. */
  lemma ContainsEmpty(s: string)
    ensures Contains(s, [])
  {
    ContainsIffMatch(s, []);
    assert MatchAt(s, [], 0);
  }

  /**
   * s.partition(sep)[2]: what follows the first occurrence of sep, or the
   * empty string when sep does not occur.  Python refuses an empty sep.
   */
  function After(s: string, sep: string): string
    requires sep != []
  {
    match FindFrom(s, sep, 0)
    case Some(i) => s[i + |sep|..]
    case None => []
  }

  /** partition splits at the first occurrence of sep; without one, the tail is empty. */
  lemma AfterSpec(s: string, sep: string)
    requires sep != []
    ensures Contains(s, sep) ==> exists i :: 0 <= i && i + |sep| <= |s| && MatchAt(s, sep, i) && (forall j :: 0 <= j < i ==> !MatchAt(s, sep, j)) && After(s, sep) == s[i + |sep|..]
    ensures !Contains(s, sep) ==> After(s, sep) == []
  {
    FindFromSpec(s, sep, 0);
  }

  /** The indices below k of the lines that contain pat, in increasing order. */
  function LinesContaining(lines: seq<string>, pat: string, k: nat): (nums: seq<nat>)
    requires k <= |lines|
    ensures forall i :: 0 <= i < |nums| ==> nums[i] < k
  {
    if k == 0 then []
    else LinesContaining(lines, pat, k - 1) + (if Contains(lines[k - 1], pat) then [k - 1] else [])
  }

  /** Every listed line contains pat. */
  lemma {:induction false} LinesContainingSound(lines: seq<string>, pat: string, k: nat)
    requires k <= |lines|
    ensures forall n :: n in LinesContaining(lines, pat, k) ==> Contains(lines[n], pat)
  {
    if k > 0 {
      LinesContainingSound(lines, pat, k - 1);
      var prev := LinesContaining(lines, pat, k - 1);
      var nums := LinesContaining(lines, pat, k);
      assert forall n :: n in nums ==> n in prev || n == k - 1;
    }
  }

  /** Every line below k that contains pat is listed. */
  lemma {:induction false} LinesContainingComplete(lines: seq<string>, pat: string, k: nat)
    requires k <= |lines|
    ensures forall n :: 0 <= n < k && Contains(lines[n], pat) ==> n in LinesContaining(lines, pat, k)
  {
    if k > 0 {
      LinesContainingComplete(lines, pat, k - 1);
      var prev := LinesContaining(lines, pat, k - 1);
      var nums := LinesContaining(lines, pat, k);
      assert forall n :: n in prev ==> n in nums;
    }
  }

  /** The line numbers are listed in increasing order. */
  lemma {:induction false} LinesContainingOrdered(lines: seq<string>, pat: string, k: nat)
    requires k <= |lines|
    ensures forall i, j :: 0 <= i < j < |LinesContaining(lines, pat, k)| ==>
      LinesContaining(lines, pat, k)[i] < LinesContaining(lines, pat, k)[j]
  {
    if k > 0 {
      LinesContainingOrdered(lines, pat, k - 1);
      var prev := LinesContaining(lines, pat, k - 1);
      var nums := LinesContaining(lines, pat, k);
      if Contains(lines[k - 1], pat) {
        assert nums == prev + [k - 1];
        forall i, j | 0 <= i < j < |nums| ensures nums[i] < nums[j] {
          assert nums[i] == prev[i];
          if j < |prev| {
            assert nums[j] == prev[j];
          }
        }
      }
    }
  }

  /** No line below k contains pat: the list is empty. */
  lemma {:induction false} LinesContainingNone(lines: seq<string>, pat: string, k: nat)
    requires k <= |lines|
    requires forall n :: 0 <= n < k ==> !Contains(lines[n], pat)
    ensures LinesContaining(lines, pat, k) == []
  {
    if k > 0 {
      LinesContainingNone(lines, pat, k - 1);
    }
  }

  /** prompt_line_nums: the lines that contain the prompt without its trailing whitespace. */
  function PromptLineNums(lines: seq<string>, prompt: string): seq<nat> {
    LinesContaining(lines, RStrip(prompt), |lines|)
  }

  /** The bound Python uses for a slice index i into a sequence of length n. */
  function SliceBound(i: int, n: nat): (b: nat)
    ensures b <= n
  {
    if i < 0 then (if i + n < 0 then 0 else i + n)
    else if i > n then n
    else i
  }

  /** Python's s[start:stop]: negative indices count from the end, and both are clamped. */
  function PySlice<T>(s: seq<T>, start: int, stop: int): seq<T> {
    var a := SliceBound(start, |s|);
    var b := SliceBound(stop, |s|);
    if a < b then s[a..b] else []
  }

  /** Within range, a slice keeps exactly the elements from start up to stop. */
  lemma PySliceInRange<T>(s: seq<T>, start: int, stop: int)
    requires 0 <= start <= stop <= |s|
    ensures PySlice(s, start, stop) == s[start..stop]
  {
  }

  /** A negative stop of -d leaves out the last d elements. */
  lemma PySliceNegativeStop<T>(s: seq<T>, start: int, d: int)
    requires 0 <= start && 0 < d && start + d <= |s|
    ensures PySlice(s, start, -d) == s[start..|s| - d]
  {
  }

  /** A slice that starts at or after its stop is empty. */
  lemma PySliceEmpty<T>(s: seq<T>, start: int, stop: int)
    requires 0 <= stop <= start
    ensures PySlice(s, start, stop) == []
  {
  }

  /** sep.join(ss). */
  function Join(ss: seq<string>, sep: string): string {
    if ss == [] then []
    else if |ss| == 1 then ss[0]
    else ss[0] + sep + Join(ss[1..], sep)
  }

  lemma {:induction false} JoinAppend(ss: seq<string>, t: string, sep: string)
    requires ss != []
    ensures Join(ss + [t], sep) == Join(ss, sep) + sep + t
  {
    if |ss| == 1 {
      assert (ss + [t])[1..] == [t];
    } else {
      assert (ss + [t])[1..] == ss[1..] + [t];
      JoinAppend(ss[1..], t, sep);
    }
  }

  /** The replacement html.escape uses for one character. */
  function EscapeChar(ch: char): string {
    if ch == '&' then "&amp;"
    else if ch == '<' then "&lt;"
    else if ch == '>' then "&gt;"
    else if ch == '"' then "&quot;"
    else if ch == '\'' then "&#x27;"
    else [ch]
  }

  /** html.escape(s) with its default quote=True. */
  function HtmlEscape(s: string): string {
    if s == [] then [] else EscapeChar(s[0]) + HtmlEscape(s[1..])
  }

  /** An escaped string holds no raw <, >, " or '. */
  lemma {:induction false} EscapedHasNoMarkup(s: string)
    ensures forall i :: 0 <= i < |HtmlEscape(s)| ==> HtmlEscape(s)[i] !in "<>\"'"
  {
    if s != [] {
      EscapedHasNoMarkup(s[1..]);
      var e := EscapeChar(s[0]);
      var t := HtmlEscape(s[1..]);
      assert HtmlEscape(s) == e + t;
      assert forall i :: 0 <= i < |e| ==> e[i] !in "<>\"'";
    }
  }

  /** Reads back one character of an escaped string, with the length it took. */
  function UnescapeFirst(r: string): (c: (char, nat))
    requires r != []
    ensures 1 <= c.1 <= |r|
  {
    if |r| >= 5 && r[..5] == "&amp;" then ('&', 5)
    else if |r| >= 4 && r[..4] == "&lt;" then ('<', 4)
    else if |r| >= 4 && r[..4] == "&gt;" then ('>', 4)
    else if |r| >= 6 && r[..6] == "&quot;" then ('"', 6)
    else if |r| >= 6 && r[..6] == "&#x27;" then ('\'', 6)
    else (r[0], 1)
  }

  /** The inverse of HtmlEscape: turns its five entities back into characters. */
  function Unescape(r: string): string
    decreases |r|
  {
    if r == [] then []
    else
      var (ch, n) := UnescapeFirst(r);
      [ch] + Unescape(r[n..])
  }

  /** Escaping loses nothing: the summary text can be read back from the escaped form. */
  lemma {:induction false} UnescapeEscape(s: string)
    ensures Unescape(HtmlEscape(s)) == s
  {
    if s != [] {
      var e := EscapeChar(s[0]);
      var r := HtmlEscape(s);
      assert r == e + HtmlEscape(s[1..]);
      UnescapeFirstOfEscape(s[0], HtmlEscape(s[1..]));
      assert r[|e|..] == HtmlEscape(s[1..]);
      UnescapeEscape(s[1..]);
    }
  }

  lemma UnescapeFirstOfEscape(ch: char, rest: string)
    ensures UnescapeFirst(EscapeChar(ch) + rest) == (ch, |EscapeChar(ch)|)
  {
    var r := EscapeChar(ch) + rest;
    if ch == '&' {
      assert r[..5] == "&amp;";
    } else if ch == '<' {
      assert r[..4] == "&lt;";
      assert r[1] == 'l';
    } else if ch == '>' {
      assert r[..4] == "&gt;";
      assert r[1] == 'g';
    } else if ch == '"' {
      assert r[..6] == "&quot;";
      assert r[1] == 'q';
    } else if ch == '\'' {
      assert r[..6] == "&#x27;";
      assert r[1] == '#';
    } else {
      assert r[0] == ch;
    }
  }

  /** The text after the prompt on line p. */
  function Command(lines: seq<string>, prompt: string, p: nat): string
    requires prompt != [] && p < |lines|
  {
    After(lines[p], prompt)
  }

  /** The index of the prompt line after nums[k], or -1 for the last one, as zip pairs them. */
  function NextPrompt(nums: seq<nat>, k: nat): int
    requires k < |nums|
  {
    if k + 1 < |nums| then nums[k + 1] else -1
  }

  /** A pair (pnum, npnum) of the loop: a prompt line and the one after it. */
  datatype Span = Span(pnum: nat, npnum: int)

  /** The pair of the k-th prompt line of nums. */
  function SpanAt(nums: seq<nat>, k: nat): Span
    requires k < |nums|
  {
    Span(nums[k], NextPrompt(nums, k))
  }

  /** The pairs among the first k whose command is not blank: those that give a block. */
  function Spans(lines: seq<string>, prompt: string, nums: seq<nat>, k: nat): (sps: seq<Span>)
    requires k <= |nums| && (prompt != [] || k == 0)
    requires forall i :: 0 <= i < |nums| ==> nums[i] < |lines|
    ensures forall j :: 0 <= j < |sps| ==> sps[j].pnum < |lines|
  {
    if k == 0 then []
    else if IsBlank(Command(lines, prompt, nums[k - 1])) then Spans(lines, prompt, nums, k - 1)
    else Spans(lines, prompt, nums, k - 1) + [SpanAt(nums, k - 1)]
  }

  /** Every kept pair is the pair of a prompt line whose command is not blank. */
  lemma {:induction false} SpansSound(lines: seq<string>, prompt: string, nums: seq<nat>, k: nat)
    requires k <= |nums| && prompt != []
    requires forall i :: 0 <= i < |nums| ==> nums[i] < |lines|
    ensures var sps := Spans(lines, prompt, nums, k);
      && |sps| <= k
      && forall sp :: sp in sps ==> exists i :: 0 <= i < k && sp == SpanAt(nums, i) && !IsBlank(Command(lines, prompt, nums[i]))
  {
    if k > 0 {
      SpansSound(lines, prompt, nums, k - 1);
      var prev := Spans(lines, prompt, nums, k - 1);
      forall sp | sp in Spans(lines, prompt, nums, k)
        ensures exists i :: 0 <= i < k && sp == SpanAt(nums, i) && !IsBlank(Command(lines, prompt, nums[i]))
      {
        if sp !in prev {
          assert sp == SpanAt(nums, k - 1);
        }
      }
    }
  }

  /** Every prompt line whose command is not blank has its pair kept. */
  lemma {:induction false} SpansComplete(lines: seq<string>, prompt: string, nums: seq<nat>, k: nat)
    requires k <= |nums| && prompt != []
    requires forall i :: 0 <= i < |nums| ==> nums[i] < |lines|
    ensures forall i :: 0 <= i < k && !IsBlank(Command(lines, prompt, nums[i])) ==> SpanAt(nums, i) in Spans(lines, prompt, nums, k)
  {
    if k > 0 {
      SpansComplete(lines, prompt, nums, k - 1);
    }
  }

  /** The kept pairs of the first k prompt lines start below any bound those lines are below. */
  lemma {:induction false} SpansBelow(lines: seq<string>, prompt: string, nums: seq<nat>, k: nat, bound: int)
    requires k <= |nums| && prompt != []
    requires forall i :: 0 <= i < |nums| ==> nums[i] < |lines|
    requires forall i :: 0 <= i < k ==> nums[i] < bound
    ensures forall sp :: sp in Spans(lines, prompt, nums, k) ==> sp.pnum < bound
  {
    if k > 0 {
      SpansBelow(lines, prompt, nums, k - 1, bound);
    }
  }

  /** With the prompt lines in increasing order, the kept pairs are in the order of their lines. */
  lemma {:induction false} SpansOrdered(lines: seq<string>, prompt: string, nums: seq<nat>, k: nat)
    requires k <= |nums| && prompt != []
    requires forall i :: 0 <= i < |nums| ==> nums[i] < |lines|
    requires forall i, j :: 0 <= i < j < |nums| ==> nums[i] < nums[j]
    ensures forall i, j :: 0 <= i < j < |Spans(lines, prompt, nums, k)| ==>
      Spans(lines, prompt, nums, k)[i].pnum < Spans(lines, prompt, nums, k)[j].pnum
  {
    if k > 0 {
      SpansOrdered(lines, prompt, nums, k - 1);
      var prev := Spans(lines, prompt, nums, k - 1);
      var sps := Spans(lines, prompt, nums, k);
      if sps != prev {
        SpansBelow(lines, prompt, nums, k - 1, nums[k - 1]);
        assert sps == prev + [SpanAt(nums, k - 1)];
        forall i, j | 0 <= i < j < |sps| ensures sps[i].pnum < sps[j].pnum {
          if j == |prev| {
            assert sps[i] == prev[i] && prev[i] in prev;
            assert sps[j] == SpanAt(nums, k - 1);
          } else {
            assert sps[i] == prev[i] && sps[j] == prev[j];
          }
        }
      }
    }
  }

  /** The summary of a block: its command, HTML-escaped. */
  function Summary(lines: seq<string>, prompt: string, sp: Span): string
    requires prompt != [] && sp.pnum < |lines|
  {
    HtmlEscape(Command(lines, prompt, sp.pnum))
  }

  /** The body of a block: the lines from after its prompt line up to nbefore lines before the next one. */
  function Body(lines: seq<string>, nbefore: int, sp: Span): string {
    Join(PySlice(lines, sp.pnum + 1, sp.npnum - nbefore), "\n")
  }

  /** Escaping keeps a non-blank string non-blank: it only replaces visible characters. */
  lemma {:induction false} EscapeKeepsNonBlank(s: string)
    requires !IsBlank(s)
    ensures !IsBlank(HtmlEscape(s))
  {
    if IsSpace(s[0]) {
      assert !IsBlank(s[1..]) by {
        var i :| 0 <= i < |s| && !IsSpace(s[i]);
        assert s[1..][i - 1] == s[i];
      }
      EscapeKeepsNonBlank(s[1..]);
      var t := HtmlEscape(s[1..]);
      var i :| 0 <= i < |t| && !IsSpace(t[i]);
      assert HtmlEscape(s)[i + 1] == t[i];
    } else if EscapeChar(s[0]) == [s[0]] {
      assert HtmlEscape(s)[0] == s[0];
    } else {
      assert HtmlEscape(s)[0] == '&';
    }
  }

  /** Every block has a summary that is not blank and holds no raw <, >, " or '. */
  lemma SummariesShowCommand(lines: seq<string>, prompt: string, nums: seq<nat>, k: nat, sp: Span)
    requires k <= |nums| && prompt != []
    requires forall i :: 0 <= i < |nums| ==> nums[i] < |lines|
    requires sp in Spans(lines, prompt, nums, k)
    ensures !IsBlank(Summary(lines, prompt, sp))
    ensures forall j :: 0 <= j < |Summary(lines, prompt, sp)| ==> Summary(lines, prompt, sp)[j] !in "<>\"'"
    ensures Unescape(Summary(lines, prompt, sp)) == Command(lines, prompt, sp.pnum)
  {
    SpansSound(lines, prompt, nums, k);
    EscapeKeepsNonBlank(Command(lines, prompt, sp.pnum));
    EscapedHasNoMarkup(Command(lines, prompt, sp.pnum));
    UnescapeEscape(Command(lines, prompt, sp.pnum));
  }

  /** One <details> block: its summary and its body. */
  datatype Block = Block(summary: string, body: string)

  /** The block of a kept pair. */
  function BlockOf(lines: seq<string>, prompt: string, nbefore: int, sp: Span): Block
    requires prompt != [] && sp.pnum < |lines|
  {
    Block(Summary(lines, prompt, sp), Body(lines, nbefore, sp))
  }

  predicate PairsIn(lines: seq<string>, sps: seq<Span>) {
    forall j :: 0 <= j < |sps| ==> sps[j].pnum < |lines|
  }

  /** The blocks of the kept pairs, in order. */
  function BlocksOf(lines: seq<string>, prompt: string, nbefore: int, sps: seq<Span>): (bs: seq<Block>)
    requires (prompt != [] || sps == []) && PairsIn(lines, sps)
    ensures |bs| == |sps|
  {
    seq(|sps|, j requires 0 <= j < |sps| => BlockOf(lines, prompt, nbefore, sps[j]))
  }

  /** The four pieces twprint appends for one block. */
  function BlockPieces(b: Block): seq<string> {
    ["<details>\n<summary>" + b.summary + "</summary>\n", "```", b.body, "```\n\n</details>\n"]
  }

  /** All the pieces of the blocks, block after block. */
  function Pieces(bs: seq<Block>): seq<string> {
    if bs == [] then [] else Pieces(bs[..|bs| - 1]) + BlockPieces(bs[|bs| - 1])
  }

  /** Block j contributes pieces 4j to 4j+3. */
  lemma {:induction false} PiecesSpec(bs: seq<Block>)
    ensures |Pieces(bs)| == 4 * |bs|
    ensures forall j :: 0 <= j < |bs| ==> Pieces(bs)[4 * j..4 * j + 4] == BlockPieces(bs[j])
  {
    if bs != [] {
      var front := bs[..|bs| - 1];
      PiecesSpec(front);
      var a := Pieces(front);
      var b := BlockPieces(bs[|bs| - 1]);
      assert Pieces(bs) == a + b;
      forall j | 0 <= j < |bs| ensures (a + b)[4 * j..4 * j + 4] == BlockPieces(bs[j]) {
        if j < |bs| - 1 {
          SliceOfFront(a, b, 4 * j, 4 * j + 4);
          assert front[j] == bs[j];
        } else {
          SliceOfBack(a, b);
        }
      }
    }
  }

  lemma SliceOfFront<T>(a: seq<T>, b: seq<T>, i: nat, j: nat)
    requires i <= j <= |a|
    ensures (a + b)[i..j] == a[i..j]
  {
  }

  lemma SliceOfBack<T>(a: seq<T>, b: seq<T>)
    ensures (a + b)[|a|..|a| + |b|] == b
  {
  }

  /**
   * make_twisty(text, prompt, nbefore) on the lines of text: the pieces of
   * every block joined by newlines, and a final newline.  An empty prompt
   * makes partition fail as soon as there is a line to look at.
   */
  function Twisty(lines: seq<string>, prompt: string, nbefore: int): (r: Result<string>)
    ensures r.Success? ==> |r.value| > 0 && r.value[|r.value| - 1] == '\n'
  {
    var nums := PromptLineNums(lines, prompt);
    if prompt == [] && nums != [] then Failure("empty separator")
    else Success(Join(Pieces(BlocksOf(lines, prompt, nbefore, Spans(lines, prompt, nums, |nums|))), "\n") + "\n")
  }

  /** A pair whose command is blank adds no block. */
  lemma SkipBlank(lines: seq<string>, prompt: string, nums: seq<nat>, k: nat, pnum: nat)
    requires k < |nums| && prompt != []
    requires forall i :: 0 <= i < |nums| ==> nums[i] < |lines|
    requires pnum == nums[k] && Strip(After(lines[pnum], prompt)) == []
    ensures Spans(lines, prompt, nums, k + 1) == Spans(lines, prompt, nums, k)
  {
    StripEmptyIffBlank(After(lines[pnum], prompt));
  }

  /** The four appends for a pair whose command is not blank add the pieces of its block. */
  lemma AppendBlock(before: seq<string>, after: seq<string>, lines: seq<string>, prompt: string, nbefore: int,
                    nums: seq<nat>, k: nat, pnum: nat, npnum: int)
    requires k < |nums| && prompt != []
    requires forall i :: 0 <= i < |nums| ==> nums[i] < |lines|
    requires pnum == nums[k] && npnum == NextPrompt(nums, k)
    requires Strip(After(lines[pnum], prompt)) != []
    requires before == Pieces(BlocksOf(lines, prompt, nbefore, Spans(lines, prompt, nums, k)))
    requires after == before + ["<details>\n<summary>" + HtmlEscape(After(lines[pnum], prompt)) + "</summary>\n"]
      + ["```"] + [Join(PySlice(lines, pnum + 1, npnum - nbefore), "\n")] + ["```\n\n</details>\n"]
    ensures after == Pieces(BlocksOf(lines, prompt, nbefore, Spans(lines, prompt, nums, k + 1)))
  {
    StripEmptyIffBlank(After(lines[pnum], prompt));
    var sps := Spans(lines, prompt, nums, k);
    var sp := SpanAt(nums, k);
    SpansGrow(lines, prompt, nums, k);
    PiecesOfBlock(before, after, lines, prompt, nbefore, nums, k, pnum, npnum);
    BlocksOfAppend(lines, prompt, nbefore, sps, sp);
    PiecesAppend(BlocksOf(lines, prompt, nbefore, sps), BlockOf(lines, prompt, nbefore, sp));
  }

  lemma SpansGrow(lines: seq<string>, prompt: string, nums: seq<nat>, k: nat)
    requires k < |nums| && prompt != []
    requires forall i :: 0 <= i < |nums| ==> nums[i] < |lines|
    requires !IsBlank(Command(lines, prompt, nums[k]))
    ensures Spans(lines, prompt, nums, k + 1) == Spans(lines, prompt, nums, k) + [SpanAt(nums, k)]
  {
  }

  lemma PiecesOfBlock(before: seq<string>, after: seq<string>, lines: seq<string>, prompt: string, nbefore: int,
                      nums: seq<nat>, k: nat, pnum: nat, npnum: int)
    requires k < |nums| && prompt != []
    requires forall i :: 0 <= i < |nums| ==> nums[i] < |lines|
    requires pnum == nums[k] && npnum == NextPrompt(nums, k)
    requires after == before + ["<details>\n<summary>" + HtmlEscape(After(lines[pnum], prompt)) + "</summary>\n"]
      + ["```"] + [Join(PySlice(lines, pnum + 1, npnum - nbefore), "\n")] + ["```\n\n</details>\n"]
    ensures after == before + BlockPieces(BlockOf(lines, prompt, nbefore, SpanAt(nums, k)))
  {
    var b := Block(HtmlEscape(After(lines[pnum], prompt)), Join(PySlice(lines, pnum + 1, npnum - nbefore), "\n"));
    BlockOfPair(lines, prompt, nbefore, nums, k, pnum, npnum);
    FourPieces(before, after, b);
  }

  lemma BlockOfPair(lines: seq<string>, prompt: string, nbefore: int, nums: seq<nat>, k: nat, pnum: nat, npnum: int)
    requires k < |nums| && prompt != []
    requires forall i :: 0 <= i < |nums| ==> nums[i] < |lines|
    requires pnum == nums[k] && npnum == NextPrompt(nums, k)
    ensures BlockOf(lines, prompt, nbefore, SpanAt(nums, k))
      == Block(HtmlEscape(After(lines[pnum], prompt)), Join(PySlice(lines, pnum + 1, npnum - nbefore), "\n"))
  {
  }

  lemma BlocksOfAppend(lines: seq<string>, prompt: string, nbefore: int, sps: seq<Span>, sp: Span)
    requires prompt != [] && PairsIn(lines, sps) && sp.pnum < |lines|
    ensures PairsIn(lines, sps + [sp])
    ensures BlocksOf(lines, prompt, nbefore, sps + [sp]) == BlocksOf(lines, prompt, nbefore, sps) + [BlockOf(lines, prompt, nbefore, sp)]
  {
    var bs := BlocksOf(lines, prompt, nbefore, sps + [sp]);
    assert forall j :: 0 <= j < |sps| ==> (sps + [sp])[j] == sps[j];
    assert bs == BlocksOf(lines, prompt, nbefore, sps) + [BlockOf(lines, prompt, nbefore, sp)];
  }

  lemma PiecesAppend(bs: seq<Block>, b: Block)
    ensures Pieces(bs + [b]) == Pieces(bs) + BlockPieces(b)
  {
    assert (bs + [b])[..|bs|] == bs;
  }

  lemma FourPieces(before: seq<string>, after: seq<string>, b: Block)
    requires after == before + ["<details>\n<summary>" + b.summary + "</summary>\n"] + ["```"] + [b.body] + ["```\n\n</details>\n"]
    ensures after == before + BlockPieces(b)
  {
  }

  /**
   * One pass of make_twisty's loop, on the pair (pnum, npnum) of prompt
   * line k and the next one: a blank command is skipped, any other appends
   * the four pieces of its block.
   */
  method EmitBlock(twisty: seq<string>, lines: seq<string>, prompt: string, nbefore: int, nums: seq<nat>, k: nat)
    returns (twisty': seq<string>)
    requires k < |nums| && prompt != []
    requires forall i :: 0 <= i < |nums| ==> nums[i] < |lines|
    requires twisty == Pieces(BlocksOf(lines, prompt, nbefore, Spans(lines, prompt, nums, k)))
    ensures twisty' == Pieces(BlocksOf(lines, prompt, nbefore, Spans(lines, prompt, nums, k + 1)))
  {
    var pnum := nums[k];
    var npnum := if k + 1 < |nums| then nums[k + 1] else -1;
    var promptLine := After(lines[pnum], prompt);
    if Strip(promptLine) == [] {
      SkipBlank(lines, prompt, nums, k, pnum);
      return twisty;
    }
    twisty' := twisty + ["<details>\n<summary>" + HtmlEscape(promptLine) + "</summary>\n"];
    twisty' := twisty' + ["```"];
    var output := Join(PySlice(lines, pnum + 1, npnum - nbefore), "\n");
    twisty' := twisty' + [output];
    twisty' := twisty' + ["```\n\n</details>\n"];
    AppendBlock(twisty, twisty', lines, prompt, nbefore, nums, k, pnum, npnum);
  }

  /** make_twisty as written: a loop over the pairs of consecutive prompt lines that appends pieces. */
  method MakeTwisty(lines: seq<string>, prompt: string, nbefore: int) returns (r: Result<string>)
    ensures r == Twisty(lines, prompt, nbefore)
  {
    var nums := PromptLineNums(lines, prompt);
    if prompt == [] && nums != [] {
      return Failure("empty separator");
    }
    var twisty := EmitBlocks(lines, prompt, nbefore, nums);
    r := Success(Join(twisty, "\n") + "\n");
  }

  method EmitBlocks(lines: seq<string>, prompt: string, nbefore: int, nums: seq<nat>) returns (twisty: seq<string>)
    requires prompt != [] || nums == []
    requires forall i :: 0 <= i < |nums| ==> nums[i] < |lines|
    ensures twisty == Pieces(BlocksOf(lines, prompt, nbefore, Spans(lines, prompt, nums, |nums|)))
  {
    twisty := [];
    for k := 0 to |nums|
      invariant twisty == Pieces(BlocksOf(lines, prompt, nbefore, Spans(lines, prompt, nums, k)))
    {
      twisty := EmitBlock(twisty, lines, prompt, nbefore, nums, k);
    }
  }

  /** Line n is a prompt line: it contains the prompt without its trailing whitespace. */
  predicate IsPromptLine(lines: seq<string>, prompt: string, n: int) {
    0 <= n < |lines| && Contains(lines[n], RStrip(prompt))
  }

  /** prompt_line_nums lists every prompt line, and only those, in increasing order. */
  lemma PromptLineNumsSpec(lines: seq<string>, prompt: string)
    ensures forall n :: n in PromptLineNums(lines, prompt) <==> IsPromptLine(lines, prompt, n)
    ensures forall i, j :: 0 <= i < j < |PromptLineNums(lines, prompt)| ==>
      PromptLineNums(lines, prompt)[i] < PromptLineNums(lines, prompt)[j]
  {
    LinesContainingSound(lines, RStrip(prompt), |lines|);
    LinesContainingComplete(lines, RStrip(prompt), |lines|);
    LinesContainingOrdered(lines, RStrip(prompt), |lines|);
  }

  /** Only an empty prompt fails, and it fails exactly when there is a line (every line contains ""). */
  lemma TwistyFailsIff(lines: seq<string>, prompt: string, nbefore: int)
    ensures Twisty(lines, prompt, nbefore).Failure? <==> prompt == [] && |lines| > 0
  {
    PromptLineNumsSpec(lines, prompt);
    if prompt == [] && |lines| > 0 {
      ContainsEmpty(lines[0]);
      assert 0 in PromptLineNums(lines, prompt);
    }
  }

  /** Without any prompt line the output is the bare final newline. */
  lemma TwistyWithoutPrompts(lines: seq<string>, prompt: string, nbefore: int)
    requires forall n :: 0 <= n < |lines| ==> !Contains(lines[n], RStrip(prompt))
    ensures Twisty(lines, prompt, nbefore) == Success("\n")
  {
    LinesContainingNone(lines, RStrip(prompt), |lines|);
    var nums := PromptLineNums(lines, prompt);
    assert BlocksOf(lines, prompt, nbefore, Spans(lines, prompt, nums, 0)) == [];
    assert Join(Pieces([]), "\n") + "\n" == "\n";
  }

  /** The pairs that give the blocks of make_twisty's output. */
  function OutputSpans(lines: seq<string>, prompt: string): seq<Span>
    requires prompt != []
  {
    var nums := PromptLineNums(lines, prompt);
    Spans(lines, prompt, nums, |nums|)
  }

  /**
   * The output is the pieces of the blocks, four per block, joined by
   * newlines and followed by one: block j's summary is the escaped command
   * and its body the slice of lines of pair j.
   */
  lemma TwistyLayout(lines: seq<string>, prompt: string, nbefore: int)
    requires prompt != []
    ensures var sps := OutputSpans(lines, prompt);
      exists ps: seq<string> ::
        && Twisty(lines, prompt, nbefore) == Success(Join(ps, "\n") + "\n")
        && |ps| == 4 * |sps|
        && forall j :: 0 <= j < |sps| ==>
             ps[4 * j..4 * j + 4] == BlockPieces(Block(Summary(lines, prompt, sps[j]), Body(lines, nbefore, sps[j])))
  {
    var sps := OutputSpans(lines, prompt);
    var bs := BlocksOf(lines, prompt, nbefore, sps);
    PiecesSpec(bs);
    var ps := Pieces(bs);
    assert Twisty(lines, prompt, nbefore) == Success(Join(ps, "\n") + "\n");
    forall j | 0 <= j < |sps|
      ensures ps[4 * j..4 * j + 4] == BlockPieces(Block(Summary(lines, prompt, sps[j]), Body(lines, nbefore, sps[j])))
    {
      assert bs[j] == BlockOf(lines, prompt, nbefore, sps[j]);
    }
  }

  /** A block is made for a line exactly when it is a prompt line whose command is not blank. */
  lemma BlockLines(lines: seq<string>, prompt: string, n: int)
    requires prompt != []
    ensures (exists j :: 0 <= j < |OutputSpans(lines, prompt)| && OutputSpans(lines, prompt)[j].pnum == n)
      <==> IsPromptLine(lines, prompt, n) && !IsBlank(Command(lines, prompt, n))
  {
    var nums := PromptLineNums(lines, prompt);
    var sps := OutputSpans(lines, prompt);
    PromptLineNumsSpec(lines, prompt);
    SpansSound(lines, prompt, nums, |nums|);
    SpansComplete(lines, prompt, nums, |nums|);
    if IsPromptLine(lines, prompt, n) && !IsBlank(Command(lines, prompt, n)) {
      var i :| 0 <= i < |nums| && nums[i] == n;
      assert SpanAt(nums, i) in sps;
    }
    if exists j :: 0 <= j < |sps| && sps[j].pnum == n {
      var j :| 0 <= j < |sps| && sps[j].pnum == n;
      assert sps[j] in sps;
    }
  }

  /** The blocks come in the order of their prompt lines. */
  lemma BlocksInLineOrder(lines: seq<string>, prompt: string)
    requires prompt != []
    ensures forall i, j :: 0 <= i < j < |OutputSpans(lines, prompt)| ==>
      OutputSpans(lines, prompt)[i].pnum < OutputSpans(lines, prompt)[j].pnum
  {
    var nums := PromptLineNums(lines, prompt);
    PromptLineNumsSpec(lines, prompt);
    SpansOrdered(lines, prompt, nums, |nums|);
  }

  /**
   * Each block's pair ends at the next prompt line, or at -1 when no prompt
   * line follows.
   */
  lemma BlockEndsAtNextPrompt(lines: seq<string>, prompt: string, j: nat)
    requires prompt != [] && j < |OutputSpans(lines, prompt)|
    ensures var sp := OutputSpans(lines, prompt)[j];
      if sp.npnum == -1 then
        forall n :: sp.pnum < n ==> !IsPromptLine(lines, prompt, n)
      else
        && sp.pnum < sp.npnum && IsPromptLine(lines, prompt, sp.npnum)
        && forall n :: sp.pnum < n < sp.npnum ==> !IsPromptLine(lines, prompt, n)
  {
    var nums := PromptLineNums(lines, prompt);
    var sps := OutputSpans(lines, prompt);
    PromptLineNumsSpec(lines, prompt);
    SpansSound(lines, prompt, nums, |nums|);
    var sp := sps[j];
    assert sp in sps;
    var i :| 0 <= i < |nums| && sp == SpanAt(nums, i) && !IsBlank(Command(lines, prompt, nums[i]));
    SortedGap(nums, i);
    if i + 1 < |nums| {
      assert nums[i + 1] in nums;
    }
  }

  /** In a strictly increasing sequence, nothing lies strictly between two neighbours. */
  lemma SortedGap(nums: seq<nat>, i: nat)
    requires i < |nums|
    requires forall a, b :: 0 <= a < b < |nums| ==> nums[a] < nums[b]
    ensures forall n :: n in nums && n > nums[i] ==> i + 1 < |nums| && n >= nums[i + 1]
  {
    forall m | 0 <= m < i ensures nums[m] < nums[i] {
    }
    forall m | i + 1 < m < |nums| ensures nums[i + 1] < nums[m] {
    }
  }

  /** A body between two prompt lines is the lines after the first, up to nbefore lines before the second. */
  lemma BodyBetweenPrompts(lines: seq<string>, nbefore: int, sp: Span)
    requires 0 <= sp.pnum + 1 <= sp.npnum - nbefore <= |lines|
    ensures Body(lines, nbefore, sp) == Join(lines[sp.pnum + 1..sp.npnum - nbefore], "\n")
  {
    PySliceInRange(lines, sp.pnum + 1, sp.npnum - nbefore);
  }

  /**
   * The last block's stop is -1 - nbefore, a negative index: its body
   * leaves out the last line of the text as well as nbefore more.
   */
  lemma BodyOfLastPrompt(lines: seq<string>, nbefore: nat, sp: Span)
    requires sp.npnum == -1 && sp.pnum + 2 + nbefore <= |lines|
    ensures Body(lines, nbefore, sp) == Join(lines[sp.pnum + 1..|lines| - 1 - nbefore], "\n")
  {
    PySliceNegativeStop(lines, sp.pnum + 1, 1 + nbefore);
  }
}
