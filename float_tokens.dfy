/** The tokens of the doubles the reader builds. A double is kept as the
    token `parseNumber` passed over, so the shape of that token is all the
    model knows of it. */
module FloatTokens {
  import opened Values
  import opened Grammar
  import opened ReaderFacts

  /** The token of a double the reader builds: `-?digits.digits`, where
      either run of digits may be empty but not both (`1.`, `.5`, `-.5`). */
  predicate FloatToken(tok: string)
  {
    var i := if tok != [] && tok[0] == '-' then 1 else 0;
    var d := DigitsEnd(tok, i);
    d < |tok| && tok[d] == '.' && DigitsEnd(tok, d + 1) == |tok| && (i < d || d + 1 < |tok|)
  }

  /** A double token is an optional `-`, then `k` digits, a `.` and the
      remaining digits, with at least one digit in all. */
  lemma FloatTokenParts(tok: string) returns (i: nat, k: nat)
    requires FloatToken(tok)
    ensures i <= 1 && i + k + 1 <= |tok| && (0 < k || i + k + 1 < |tok|)
    ensures (tok[0] == '-') == (i == 1)
    ensures forall j | i <= j < i + k :: IsDigit(tok[j])
    ensures tok[i + k] == '.'
    ensures forall j | i + k + 1 <= j < |tok| :: IsDigit(tok[j])
  {
    i := if tok != [] && tok[0] == '-' then 1 else 0;
    k := DigitsEnd(tok, i) - i;
    DigitsEndPassesDigits(tok, i);
    DigitsEndPassesDigits(tok, i + k + 1);
  }

  lemma FloatTokenEnds(tok: string)
    requires FloatToken(tok)
    ensures tok[0] == '-' || tok[0] == '.' || IsDigit(tok[0])
    ensures tok[|tok| - 1] == '.' || IsDigit(tok[|tok| - 1])
  {
    var i, k := FloatTokenParts(tok);
  }

  /** A double token is read as that token. */
  lemma NumberValueOfFloat(tok: string)
    requires FloatToken(tok)
    ensures NumberValue(tok) == Float(tok)
  {
    var i, k := FloatTokenParts(tok);
    assert tok[i + k] == '.';
    if 0 < k {
      assert IsDigit(tok[i]);
    } else {
      assert IsDigit(tok[i + k + 1]);
    }
  }

  /** A token made of an optional `-`, `k` digits, a `.` and more digits, with
      at least one digit in all, has the shape of a double. */
  lemma FloatTokenOf(t: string, i: nat, k: nat)
    requires i <= 1 && i + k < |t| && (i == 1) == (t[0] == '-')
    requires forall j | i <= j < i + k :: IsDigit(t[j])
    requires t[i + k] == '.'
    requires forall j | i + k + 1 <= j < |t| :: IsDigit(t[j])
    requires 0 < k || i + k + 1 < |t|
    ensures FloatToken(t)
  {
    DigitsEndOver(t, i, k);
    DigitsEndOver(t, i + k + 1, |t| - (i + k + 1));
  }

  /** The token `parseNumber` passes at `p`: an optional `-` (`i` is its
      length), `k` digits, and either nothing more or a `.` and more digits. */
  lemma NumberTokenParts(s: string, p: nat, tok: string) returns (i: nat, k: nat)
    requires p <= |s| && tok == s[p..NumberEnd(s, p)]
    ensures i <= 1 && i + k <= |tok| && (i == 1) == (tok != [] && tok[0] == '-')
    ensures forall j | i <= j < i + k :: IsDigit(tok[j])
    ensures i + k < |tok| ==> tok[i + k] == '.'
    ensures forall j | i + k + 1 <= j < |tok| :: IsDigit(tok[j])
  {
    var q0 := if p < |s| && s[p] == '-' then p + 1 else p;
    var q1 := DigitsEnd(s, q0);
    i, k := q0 - p, q1 - q0;
    DigitsEndPassesDigits(s, q0);
    if q1 < |s| && s[q1] == '.' {
      DigitsEndPassesDigits(s, q1 + 1);
    }
    assert forall j | 0 <= j < |tok| :: tok[j] == s[p + j];
  }

  /** Every double the reader builds has a token of that shape: `parseNumber`
      passes `-?digits(.digits)?`, and the token becomes a double only when it
      holds a `.` and a digit. */
  lemma ReadFloatShaped(s: string, p: nat)
    requires p <= |s|
    ensures ParseNumber(s, p).0.Float? ==> FloatToken(ParseNumber(s, p).0.token)
  {
    var tok := s[p..NumberEnd(s, p)];
    assert ParseNumber(s, p).0 == NumberValue(tok);
    if NumberValue(tok).Float? {
      var i, k := NumberTokenParts(s, p, tok);
      var d :| 0 <= d < |tok| && IsDigit(tok[d]);
      var dot :| 0 <= dot < |tok| && tok[dot] == '.';
      assert i <= dot && !IsDigit(tok[dot]);
      assert i + k < |tok|;
      assert d != i + k && (i == 1 ==> d != 0);
      FloatTokenOf(tok, i, k);
    }
  }
}
