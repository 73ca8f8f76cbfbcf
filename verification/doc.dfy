/** Help-text formatting: `_print_doc` removes the whitespace indentation
    that all non-blank lines of a doc string share, and prints blank lines
    as they are. The model returns the printed lines instead of printing. */
module Doc {
  import opened Text

  /** `p` is whitespace and begins every non-blank line. */
  ghost predicate IsCommonIndent(lines: seq<string>, p: string) {
    && Blank(p)
    && forall i :: 0 <= i < |lines| && !Blank(lines[i]) ==> p <= lines[i]
  }

  /** Some line has a non-whitespace character. */
  predicate HasText(lines: seq<string>) {
    exists i :: 0 <= i < |lines| && !Blank(lines[i])
  }

  /** Index of the first non-blank line, or `|lines|` when all are blank. */
  function FirstNonBlank(lines: seq<string>, i: nat): (f: nat)
    requires i <= |lines|
    ensures i <= f <= |lines|
    ensures forall j :: i <= j < f ==> Blank(lines[j])
    ensures f < |lines| ==> !Blank(lines[f])
    decreases |lines| - i
  {
    if i == |lines| || !Blank(lines[i]) then i else FirstNonBlank(lines, i + 1)
  }

  /** A non-blank line after `first` lacks character `c` at column `p`. */
  predicate Diverges(lines: seq<string>, first: nat, p: nat, c: char) {
    exists j :: first < j < |lines| && !Blank(lines[j]) && (p >= |lines[j]| || lines[j][p] != c)
  }

  /** Walks the columns of the first non-blank line from `p` and stops at
      the first one that is not whitespace or that some later non-blank
      line does not share. */
  function ScanIndent(lines: seq<string>, first: nat, p: nat): (k: nat)
    requires first < |lines| && p <= |lines[first]|
    requires exists q :: p <= q < |lines[first]| && !IsSpace(lines[first][q])
    ensures p <= k < |lines[first]|
    ensures !IsSpace(lines[first][k]) || Diverges(lines, first, k, lines[first][k])
    ensures forall q :: p <= q < k ==> IsSpace(lines[first][q]) && !Diverges(lines, first, q, lines[first][q])
    decreases |lines[first]| - p
  {
    var line := lines[first];
    if !IsSpace(line[p]) || Diverges(lines, first, p, line[p]) then p
    else ScanIndent(lines, first, p + 1)
  }

  /** Width of the indentation to strip: 0 when every line is blank. */
  function IndentWidth(lines: seq<string>): nat {
    var f := FirstNonBlank(lines, 0);
    if f == |lines| then 0 else ScanIndent(lines, f, 0)
  }

  /** The stripped indentation is whitespace common to all non-blank lines,
      and it is the longest such prefix: any other common whitespace prefix
      is a prefix of it. With no non-blank line, nothing is stripped. */
  function Indent(lines: seq<string>): (p: string)
    ensures IsCommonIndent(lines, p)
    ensures HasText(lines) ==> forall q :: IsCommonIndent(lines, q) ==> q <= p
    ensures !HasText(lines) ==> p == []
  {
    var f := FirstNonBlank(lines, 0);
    if f == |lines| then []
    else
      var k := ScanIndent(lines, f, 0);
      var p := lines[f][..k];
      CommonIndentOfScan(lines, f, k);
      forall q | IsCommonIndent(lines, q)
        ensures q <= p
      {
        LongestIndent(lines, f, k, q);
      }
      p
  }

  lemma CommonIndentOfScan(lines: seq<string>, f: nat, k: nat)
    requires f < |lines| && !Blank(lines[f]) && k < |lines[f]|
    requires forall j :: 0 <= j < f ==> Blank(lines[j])
    requires forall q :: 0 <= q < k ==> IsSpace(lines[f][q]) && !Diverges(lines, f, q, lines[f][q])
    ensures IsCommonIndent(lines, lines[f][..k])
  {
    var p := lines[f][..k];
    forall i | 0 <= i < |lines| && !Blank(lines[i])
      ensures p <= lines[i]
    {
      if i > f {
        forall q | 0 <= q < k
          ensures q < |lines[i]| && lines[i][q] == p[q]
        {
          assert !Diverges(lines, f, q, lines[f][q]);
        }
      }
    }
  }

  lemma LongestIndent(lines: seq<string>, f: nat, k: nat, q: string)
    requires f < |lines| && !Blank(lines[f]) && k < |lines[f]|
    requires !IsSpace(lines[f][k]) || Diverges(lines, f, k, lines[f][k])
    requires IsCommonIndent(lines, q)
    ensures q <= lines[f][..k]
  {
    var line := lines[f];
    assert q <= line;
    if |q| > k {
      assert q[k] == line[k] && IsSpace(q[k]);
      var j :| f < j < |lines| && !Blank(lines[j]) && (k >= |lines[j]| || lines[j][k] != line[k]);
      assert false;
    }
  }

  /** Python's `line[k:]`: empty when `k` is past the end. */
  function Drop(line: string, k: nat): string {
    if k <= |line| then line[k..] else []
  }

  /** The lines as `_print_doc` prints them: blank lines untouched, the
      common indentation removed from every other line. */
  function StripIndent(lines: seq<string>): (out: seq<string>)
    ensures |out| == |lines|
    ensures forall i :: 0 <= i < |lines| && Blank(lines[i]) ==> out[i] == lines[i]
    ensures forall i :: 0 <= i < |lines| && !Blank(lines[i]) ==> lines[i] == Indent(lines) + out[i]
    ensures !HasText(lines) ==> out == lines
  {
    var k := IndentWidth(lines);
    assert k == |Indent(lines)|;
    seq(|lines|, i requires 0 <= i < |lines| => if Blank(lines[i]) then lines[i] else Drop(lines[i], k))
  }

  /** `_print_doc` on a whole doc string: split into lines at '\n', strip. */
  function PrintDoc(doc: string): (out: seq<string>)
    ensures |out| == |Split(doc, "\n")|
  {
    StripIndent(Split(doc, "\n"))
  }

  /** Re-joining the printed lines of a doc string whose lines are all
      blank gives the doc string back. */
  lemma PrintDocBlank(doc: string)
    requires Blank(doc)
    ensures Join(PrintDoc(doc), "\n") == doc
  {
    var lines := Split(doc, "\n");
    SplitJoin(doc, "\n");
    BlankPieces(doc, "\n");
  }

  /** Every piece of a blank string, split anywhere, is blank. */
  lemma BlankPieces(s: string, sep: string)
    requires sep != [] && Blank(s)
    ensures !HasText(Split(s, sep))
  {
    BlankPiecesFrom(s, sep, 0, 0);
  }

  lemma {:induction false} BlankPiecesFrom(s: string, sep: string, start: nat, i: nat)
    requires sep != [] && start <= i <= |s| && Blank(s)
    ensures forall n :: 0 <= n < |SplitFrom(s, sep, start, i)| ==> Blank(SplitFrom(s, sep, start, i)[n])
    decreases |s| - i
  {
    var parts := SplitFrom(s, sep, start, i);
    if i == |s| {
      assert parts == [s[start..]];
    } else if MatchAt(s, sep, i) {
      BlankPiecesFrom(s, sep, i + |sep|, i + |sep|);
      assert parts == [s[start..i]] + SplitFrom(s, sep, i + |sep|, i + |sep|);
    } else {
      BlankPiecesFrom(s, sep, start, i + 1);
      assert parts == SplitFrom(s, sep, start, i + 1);
    }
  }
}
