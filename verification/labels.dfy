/** Loop label text: the sibling counters of a nesting path written in
    decimal and joined by `_`, as `str(list)` with `", "` turned into `_`
    and the brackets removed yields (lgbt.py:109-111). */
module Labels {

  predicate IsDigit(c: char)
  {
    '0' <= c <= '9'
  }

  function DigitChar(d: nat): (c: char)
    requires d < 10
    ensures IsDigit(c)
  {
    ('0' as int + d) as char
  }

  function DigitValue(c: char): (r: nat)
    requires IsDigit(c)
  {
    c as int - '0' as int
  }

  predicate AllDigits(s: string)
  {
    forall k :: 0 <= k < |s| ==> IsDigit(s[k])
  }

  /** The value of a string of decimal digits. */
  function ParseDecimal(s: string): (r: nat)
    requires AllDigits(s)
    decreases |s|
  {
    if |s| == 0 then 0 else ParseDecimal(s[..|s|-1]) * 10 + DigitValue(s[|s|-1])
  }

  /** Python's `str(n)` for a non-negative integer. */
  function Decimal(n: nat): (r: string)
    ensures |r| > 0 && AllDigits(r)
    ensures r[0] == '0' ==> r == "0"
    ensures ParseDecimal(r) == n
    decreases n
  {
    if n < 10 then [DigitChar(n)]
    else
      var r := Decimal(n / 10) + [DigitChar(n % 10)];
      assert r[..|r|-1] == Decimal(n / 10);
      r
  }

  /** Characters a label may contain. */
  predicate IsLabelText(s: string)
  {
    forall k :: 0 <= k < |s| ==> IsDigit(s[k]) || s[k] == '_'
  }

  /** The label of a nesting path: `[1, 2]` gives `"1_2"`, `[]` gives `""`. */
  function Label(path: seq<nat>): (r: string)
    ensures IsLabelText(r)
    ensures |r| == 0 <==> |path| == 0
    ensures |path| == 1 ==> r == Decimal(path[0])
    decreases |path|
  {
    if |path| == 0 then ""
    else if |path| == 1 then Decimal(path[0])
    else Decimal(path[0]) + "_" + Label(path[1..])
  }

  /** Index of the first `_` at or after `i`, or `|s|` when there is none. */
  function FieldEnd(s: string, i: nat): (k: nat)
    requires i <= |s|
    ensures i <= k <= |s|
    ensures forall j :: i <= j < k ==> s[j] != '_'
    ensures k < |s| ==> s[k] == '_'
    decreases |s| - i
  {
    if i == |s| || s[i] == '_' then i else FieldEnd(s, i + 1)
  }

  /** Reads a nesting path back from its label. */
  function ParseLabel(s: string): (r: seq<nat>)
    requires IsLabelText(s)
    decreases |s|
  {
    if |s| == 0 then []
    else
      var k := FieldEnd(s, 0);
      [ParseDecimal(s[..k])] + (if k == |s| then [] else ParseLabel(s[k+1..]))
  }

  /** Built from the back: one more counter appends `_` and its decimal
      text, so `[1, 2]` gives `"1_2"` and no separator trails or pads. */
  lemma {:induction false} LabelSnoc(path: seq<nat>, n: nat)
    requires |path| > 0
    ensures Label(path + [n]) == Label(path) + "_" + Decimal(n)
    decreases |path|
  {
    var p := path + [n];
    assert p[0] == path[0] && p[1..] == path[1..] + [n];
    if |path| > 1 {
      LabelSnoc(path[1..], n);
    }
  }

  /** Reading a label gives back the path it was made from. */
  lemma {:induction false} LabelRoundTrip(path: seq<nat>)
    ensures ParseLabel(Label(path)) == path
    decreases |path|
  {
    if |path| == 0 {
    } else if |path| == 1 {
      var d := Decimal(path[0]);
      assert forall j :: 0 <= j < |d| ==> d[j] != '_' by {
        assert AllDigits(d);
      }
      assert d[..|d|] == d;
    } else {
      var d := Decimal(path[0]);
      var rest := Label(path[1..]);
      var s := d + "_" + rest;
      assert s == Label(path);
      var k := FieldEnd(s, 0);
      assert s[|d|] == '_';
      assert forall j :: 0 <= j < |d| ==> s[j] != '_' by {
        assert AllDigits(d);
      }
      assert k == |d|;
      assert s[..k] == d;
      assert s[k+1..] == rest;
      LabelRoundTrip(path[1..]);
    }
  }

  /** Distinct nesting paths never share a label. */
  lemma LabelInjective(a: seq<nat>, b: seq<nat>)
    ensures Label(a) == Label(b) <==> a == b
  {
    if Label(a) == Label(b) {
      LabelRoundTrip(a);
      LabelRoundTrip(b);
    }
  }
}
