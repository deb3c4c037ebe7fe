// The filters a phone-number candidate must pass, and the normal form used
// in the "tel:" link.
module PhoneRules {
  import opened CharClass

  /** What may stand right before a phone number: one of " \r\t\n:". */
  predicate IsBeginSeparator(c: char) {
    c == ' ' || c == '\r' || c == '\t' || c == '\n' || c == ':'
  }

  /** What may stand right after a phone number: one of " \r\t\n,.". */
  predicate IsEndSeparator(c: char) {
    c == ' ' || c == '\r' || c == '\t' || c == '\n' || c == ',' || c == '.'
  }

  /** A phone number may start at index p: it is the first character or
      follows a begin separator. */
  predicate StartsNumber(text: seq<char>, p: int)
    requires 0 <= p <= |text|
  {
    p == 0 || IsBeginSeparator(text[p - 1])
  }

  /** A phone number may end before index i: it is the end of the text or
      an end separator. */
  predicate EndsNumber(text: seq<char>, i: int)
    requires 0 <= i <= |text|
  {
    i == |text| || IsEndSeparator(text[i])
  }

  /** At most this many digits (the longest international numbers). */
  const MaxDigits: int := 15

  /** What the source's pattern [+0](( |( ?[/-] ?)?)\(?\d+\)?+){6,30} can
      match, as far as the filters depend on it: at least seven characters,
      the first '+' or '0', only digits, spaces, '/', '-' and parentheses, and
      a closing parenthesis only right after a digit. */
  ghost predicate TelShape(m: seq<char>) {
    |m| >= 7 && (m[0] == '+' || m[0] == '0') && TelChars(m)
  }

  /** Every character may occur in the pattern's match, a ')' only after a
      digit. */
  ghost predicate TelChars(m: seq<char>) {
    m == [] ||
      (var c := m[|m| - 1];
       && TelChars(m[..|m| - 1])
       && (IsDigit(c) || c in " /-()")
       && (c == ')' ==> |m| >= 2 && IsDigit(m[|m| - 2])))
  }

  /** In a text of the pattern's shape, a ')' follows a digit. */
  lemma {:induction false} CloseAfterDigit(m: seq<char>, k: int)
    requires TelChars(m) && 0 <= k < |m| && m[k] == ')'
    ensures k >= 1 && IsDigit(m[k - 1])
  {
    if k < |m| - 1 {
      var m' := m[..|m| - 1];
      assert m'[k] == m[k];
      CloseAfterDigit(m', k);
      assert m'[k - 1] == m[k - 1];
    }
  }

  function CountDigits(s: seq<char>): (n: nat)
    ensures n <= |s|
  {
    if s == [] then 0 else CountDigits(s[..|s| - 1]) + (if IsDigit(s[|s| - 1]) then 1 else 0)
  }

  /** A string of digits counts all its characters. */
  lemma {:induction false} CountDigitsAll(s: seq<char>)
    requires forall k :: 0 <= k < |s| ==> IsDigit(s[k])
    ensures CountDigits(s) == |s|
  {
    if s != [] {
      CountDigitsAll(s[..|s| - 1]);
    }
  }

  lemma {:induction false} CountDigitsPrefix(s: seq<char>, k: nat)
    requires k <= |s|
    ensures CountDigits(s[..k]) <= CountDigits(s)
    decreases |s|
  {
    if k < |s| {
      assert s[..|s| - 1][..k] == s[..k];
      CountDigitsPrefix(s[..|s| - 1], k);
    } else {
      assert s[..k] == s;
    }
  }

  // Parentheses: balanced and never nested, checked left to right.

  datatype ParenState = Closed | Open | Broken

  function ParenStep(st: ParenState, c: char): ParenState {
    match st
    case Broken => Broken
    case Closed => if c == '(' then Open else if c == ')' then Broken else Closed
    case Open => if c == '(' then Broken else if c == ')' then Closed else Open
  }

  function Parens(s: seq<char>): ParenState {
    if s == [] then Closed else ParenStep(Parens(s[..|s| - 1]), s[|s| - 1])
  }

  predicate Balanced(s: seq<char>) {
    Parens(s) == Closed
  }

  /** The parentheses of `s`, in order. */
  function ParenChars(s: seq<char>): (p: seq<char>)
    ensures forall k :: 0 <= k < |p| ==> p[k] == '(' || p[k] == ')'
  {
    if s == [] then []
    else ParenChars(s[..|s| - 1]) + (if s[|s| - 1] == '(' || s[|s| - 1] == ')' then [s[|s| - 1]] else [])
  }

  /** Reference definition: "(" and ")" alternate, starting with "(". */
  ghost predicate Alternating(p: seq<char>) {
    forall k :: 0 <= k < |p| ==> p[k] == (if k % 2 == 0 then '(' else ')')
  }

  /** The automaton accepts exactly the texts whose parentheses read
      "()()...()", and is left open exactly when one more "(" follows. */
  lemma {:induction false} ParensAlternate(s: seq<char>)
    ensures Parens(s) == Closed <==> Alternating(ParenChars(s)) && |ParenChars(s)| % 2 == 0
    ensures Parens(s) == Open <==> Alternating(ParenChars(s)) && |ParenChars(s)| % 2 == 1
  {
    if s != [] {
      var s', c := s[..|s| - 1], s[|s| - 1];
      ParensAlternate(s');
      var p' := ParenChars(s');
      if c == '(' || c == ')' {
        assert ParenChars(s) == p' + [c];
        assert Alternating(p' + [c]) <==> Alternating(p') && c == (if |p'| % 2 == 0 then '(' else ')') by {
          if Alternating(p' + [c]) {
            forall k | 0 <= k < |p'| ensures p'[k] == (if k % 2 == 0 then '(' else ')') {
              assert (p' + [c])[k] == p'[k];
            }
            assert (p' + [c])[|p'|] == c;
          }
        }
      } else {
        assert ParenChars(s) == p';
      }
    }
  }

  /** Characters other than parentheses do not change the verdict. */
  lemma {:induction false} ParensIgnoreOthers(s: seq<char>, k: nat)
    requires k <= |s|
    requires forall i :: k <= i < |s| ==> s[i] != '(' && s[i] != ')'
    ensures Parens(s[..k]) == Parens(s)
    decreases |s|
  {
    if k < |s| {
      assert s[..|s| - 1][..k] == s[..k];
      ParensIgnoreOthers(s[..|s| - 1], k);
    } else {
      assert s[..k] == s;
    }
  }

  // The normal form of a number for the "tel:" link.

  predicate IsPhoneChar(c: char) {
    IsDigit(c) || c == '+'
  }

  /** The digits and '+' signs of `s`, in their order. */
  function PhoneChars(s: seq<char>): (r: seq<char>)
    ensures |r| <= |s|
    ensures forall k :: 0 <= k < |r| ==> IsPhoneChar(r[k])
  {
    if s == [] then [] else PhoneChars(s[..|s| - 1]) + (if IsPhoneChar(s[|s| - 1]) then [s[|s| - 1]] else [])
  }

  /** The normal form of a concatenation is the concatenation of the normal
      forms: every character is kept or dropped on its own, in order. */
  lemma {:induction false} PhoneCharsAppend(a: seq<char>, b: seq<char>)
    ensures PhoneChars(a + b) == PhoneChars(a) + PhoneChars(b)
  {
    if b == [] {
      assert a + b == a;
    } else {
      assert (a + b)[..|a + b| - 1] == a + b[..|b| - 1];
      PhoneCharsAppend(a, b[..|b| - 1]);
    }
  }

  /** A string made of digits and '+' only is its own normal form. */
  lemma {:induction false} PhoneCharsKeep(s: seq<char>)
    requires forall k :: 0 <= k < |s| ==> IsPhoneChar(s[k])
    ensures PhoneChars(s) == s
  {
    if s != [] {
      PhoneCharsKeep(s[..|s| - 1]);
    }
  }

  /** Normalising twice is normalising once. */
  lemma PhoneCharsIdempotent(s: seq<char>)
    ensures PhoneChars(PhoneChars(s)) == PhoneChars(s)
  {
    PhoneCharsKeep(PhoneChars(s));
  }

  /** Nothing kept is lost: each digit and '+' occurs as often in the normal
      form as in the input. */
  lemma {:induction false} PhoneCharsCount(s: seq<char>, c: char)
    requires IsPhoneChar(c)
    ensures Count(PhoneChars(s), c) == Count(s, c)
  {
    if s != [] {
      var s', last := s[..|s| - 1], s[|s| - 1];
      PhoneCharsCount(s', c);
      assert s == s' + [last];
      CountAppend(s', [last], c);
      CountAppend(PhoneChars(s'), if IsPhoneChar(last) then [last] else [], c);
    }
  }

  /** A number accepted by the phone-number filters, found at index p. */
  ghost predicate PhoneAt(text: seq<char>, p: int, r: seq<char>) {
    && 0 <= p && p + |r| <= |text| && |r| >= 1
    && r == text[p..p + |r|]
    && IsPhoneChar(r[0])
    && CountDigits(r) <= MaxDigits
    && Count(r, '/') <= 1
    && Balanced(r)
    && StartsNumber(text, p)
    && EndsNumber(text, p + |r|)
  }

  /** Cutting a match before its last, unclosed '(' (and the character
      before it) leaves a prefix of the match whose parentheses are
      balanced, unless the cut fell right after a ')': then the cut keeps
      every character before that ')'. */
  lemma UnclosedTruncation(m: seq<char>, openIdx: int)
    requires TelShape(m) && 0 < openIdx < |m|
    requires m[openIdx] == '(' && Parens(m[..openIdx]) == Closed
    ensures var t := Trimmed(m[..openIdx - 1]);
      && t == m[..|t|]
      && (Balanced(t) || (|t| == openIdx - 1 && m[openIdx - 1] == ')'))
  {
    var u := m[..openIdx - 1];
    assert u == [] || !IsSpace(u[0]) by {
      if u != [] { assert u[0] == m[0]; }
    }
    TrimmedIsTrimEnd(u);
    TrimEndMeaning(u);
    var e := TrimEnd(u);
    assert e == m[..|e|];
    var c := m[openIdx - 1];
    assert m[..openIdx] == u + [c];
    if c == ')' {
      CloseAfterDigit(m, openIdx - 1);
      assert u[|u| - 1] == m[openIdx - 2];
      assert e == u;
    } else {
      assert Parens(m[..openIdx]) == ParenStep(Parens(u), c) by {
        assert m[..openIdx][..openIdx - 1] == u;
      }
      assert Parens(u) == Closed;
      forall i | |e| <= i < |u| ensures u[i] != '(' && u[i] != ')' {
        assert IsSpace(u[i]);
      }
      ParensIgnoreOthers(u, |e|);
      assert u[..|e|] == e;
    }
  }

  lemma TrimmedIsTrimEnd(u: seq<char>)
    requires u == [] || !IsSpace(u[0])
    ensures Trimmed(u) == TrimEnd(u)
  {
    var e := TrimEnd(u);
    TrimEndMeaning(u);
    TrimStartMeaning(e);
    if e != [] {
      assert e[0] == u[0];
    }
  }

  lemma SlicePrefix(text: seq<char>, p: int, n: int, k: int)
    requires 0 <= p && 0 <= k <= n && p + n <= |text|
    ensures text[p..p + n][..k] == text[p..p + k]
  {
  }

  /** A prefix of a filtered match that is followed by a separator is a
      phone number: it is not empty, since the match starts with a phone
      character, and it does not stop right before a ')', since neither is
      a separator. */
  lemma CutIsPhone(text: seq<char>, p: int, n: int, cut: seq<char>)
    requires 0 <= p && 1 <= n && p + n <= |text| && IsPhoneChar(text[p])
    requires CountDigits(text[p..p + n]) <= MaxDigits && Count(text[p..p + n], '/') <= 1
    requires |cut| <= n && cut == text[p..p + n][..|cut|]
    requires Balanced(cut) || (|cut| < n && text[p..p + n][|cut|] == ')')
    requires StartsNumber(text, p)
    requires EndsNumber(text, p + |cut|)
    ensures PhoneAt(text, p, cut)
  {
    var whole := text[p..p + n];
    SlicePrefix(text, p, n, |cut|);
    NoEndSeparator(text[p]);
    assert |cut| >= 1;
    NoEndSeparator(')');
    assert |cut| < n ==> whole[|cut|] == text[p + |cut|];
    assert Balanced(cut);
    CountDigitsPrefix(whole, |cut|);
    CountPrefix(whole, |cut|, '/');
    assert cut[0] == text[p];
  }

  /** Neither a phone character nor ')' may follow a number. */
  lemma NoEndSeparator(c: char)
    requires IsPhoneChar(c) || c == ')'
    ensures !IsEndSeparator(c)
  {
  }

  /** Once the automaton fails, it stays failed. */
  lemma {:induction false} BrokenStaysBroken(s: seq<char>, k: nat)
    requires k <= |s| && Parens(s[..k]) == Broken
    ensures Parens(s) == Broken
    decreases |s| - k
  {
    if k < |s| {
      assert s[..k + 1][..k] == s[..k];
      BrokenStaysBroken(s, k + 1);
    } else {
      assert s[..k] == s;
    }
  }

  // What getPhoneNumber returns, as one function of the text.

  /** The index of the last '(' in `s`, or -1 when there is none. */
  function LastOpen(s: seq<char>): (r: int)
    ensures -1 <= r < |s|
    ensures r >= 0 ==> s[r] == '('
  {
    if s == [] then -1 else if s[|s| - 1] == '(' then |s| - 1 else LastOpen(s[..|s| - 1])
  }

  /** No '(' follows the one LastOpen finds. */
  lemma {:induction false} LastOpenIsLast(s: seq<char>)
    ensures forall k :: LastOpen(s) < k < |s| ==> s[k] != '('
  {
    if s != [] && s[|s| - 1] != '(' {
      var s' := s[..|s| - 1];
      LastOpenIsLast(s');
      forall k | LastOpen(s) < k < |s| ensures s[k] != '(' {
        if k < |s| - 1 { assert s[k] == s'[k]; }
      }
    }
  }

  /** The verdict of the filters on the pattern's match. */
  datatype Filtered = Refused | Kept(cut: seq<char>)

  /** The filters on the match `m`: more than 15 digits, more than one '/',
      a nested '(' or a ')' without '(' refuse it; a match left inside
      parentheses is cut before its last '(' and the character before that,
      then trimmed. */
  function Filter(m: seq<char>): (r: Filtered)
    ensures r.Kept? ==> |r.cut| <= |m|
  {
    if CountDigits(m) > MaxDigits || Count(m, '/') > 1 || Parens(m) == Broken then Refused
    else Kept(CutBefore(m, OpenIndex(m)))
  }

  /** Where the parenthesis loop leaves its index: at the last '(' when the
      match ends inside parentheses, -1 otherwise. */
  function OpenIndex(m: seq<char>): (r: int)
    ensures -1 <= r < |m|
  {
    if Parens(m) == Open then LastOpen(m) else -1
  }

  /** The match cut before the '(' at openIdx and the character before it,
      then trimmed; the whole match when openIdx is not positive. */
  function CutBefore(m: seq<char>, openIdx: int): (r: seq<char>)
    requires openIdx < |m|
    ensures |r| <= |m|
  {
    if openIdx > 0 then Trimmed(m[..openIdx - 1]) else m
  }

  /** The number getPhoneNumber returns at index p, where the pattern
      matched the `telMatch` characters from p (none when it did not match),
      or the empty string. */
  function PhoneNumber(text: seq<char>, p: int, telMatch: int): (r: seq<char>)
    requires 0 <= p < |text|
    requires telMatch == 0 || (0 < telMatch && p + telMatch <= |text|)
    ensures |r| <= telMatch
  {
    if !IsPhoneChar(text[p]) || !StartsNumber(text, p) || telMatch == 0 then []
    else
      match Filter(text[p..p + telMatch])
      case Refused => []
      case Kept(cut) => Separated(text, p, cut)
  }

  /** `cut`, when a plausible separator or the end of the text follows it
      at index p, or the empty string. */
  function Separated(text: seq<char>, p: int, cut: seq<char>): (r: seq<char>)
    requires 0 <= p && p + |cut| <= |text|
    ensures r == [] || r == cut
    ensures r != [] ==> EndsNumber(text, p + |r|)
  {
    if EndsNumber(text, p + |cut|) then cut else []
  }

  /** The filters refuse exactly the matches the digit count, the '/'
      count or the parenthesis automaton rejects. */
  lemma FilterRefuses(m: seq<char>)
    ensures Filter(m).Kept? <==> CountDigits(m) <= MaxDigits && Count(m, '/') <= 1 && Parens(m) != Broken
  {
  }

  /** A match the filters keep is kept whole when its parentheses are
      closed, and otherwise cut to a prefix that is balanced or stops before
      a ')'. */
  lemma FilterMeaning(m: seq<char>)
    requires TelShape(m) && Filter(m).Kept?
    ensures var cut := Filter(m).cut;
      && cut == m[..|cut|] && (Balanced(cut) || (|cut| < |m| && m[|cut|] == ')'))
      && (Balanced(m) ==> cut == m)
  {
    if Parens(m) == Open {
      FilterOpen(m);
    } else {
      assert Filter(m).cut == CutBefore(m, -1);
      assert m[..|m|] == m;
    }
  }

  lemma FilterOpen(m: seq<char>)
    requires TelShape(m) && Filter(m).Kept? && Parens(m) == Open
    ensures var cut := Filter(m).cut;
      cut == m[..|cut|] && (Balanced(cut) || (|cut| < |m| && m[|cut|] == ')'))
  {
    var openIdx := LastOpen(m);
    OpenBeforeLast(m);
    assert m[0] != '(';
    assert Filter(m).cut == CutBefore(m, openIdx);
    UnclosedTruncation(m, openIdx);
  }

  /** When the automaton ends open, the parentheses before the last '(' are
      closed. */
  lemma {:induction false} OpenBeforeLast(s: seq<char>)
    requires Parens(s) == Open
    ensures LastOpen(s) >= 0 && Parens(s[..LastOpen(s)]) == Closed
  {
    var s', c := s[..|s| - 1], s[|s| - 1];
    if c != '(' {
      assert c != ')';
      OpenBeforeLast(s');
      assert s[..LastOpen(s)] == s'[..LastOpen(s')];
    }
  }

  /** A number getPhoneNumber returns is accepted by the filters and lies
      inside the match. */
  lemma PhoneNumberSound(text: seq<char>, p: int, telMatch: int)
    requires 0 <= p < |text|
    requires telMatch == 0 || (0 < telMatch && p + telMatch <= |text| && TelShape(text[p..p + telMatch]))
    ensures var r := PhoneNumber(text, p, telMatch);
      r != [] ==> PhoneAt(text, p, r)
  {
    var r := PhoneNumber(text, p, telMatch);
    if r != [] {
      PhoneNumberKept(text, p, telMatch);
      var m := text[p..p + telMatch];
      FilterRefuses(m);
      FilterMeaning(m);
      CutIsPhone(text, p, telMatch, r);
    }
  }

  /** When the whole match of the pattern is a number the filters accept,
      getPhoneNumber returns all of it. */
  lemma WholeMatch(text: seq<char>, p: int, n: int)
    requires 0 <= p && 0 < n && p + n <= |text| && PhoneAt(text, p, text[p..p + n])
    ensures PhoneNumber(text, p, n) == text[p..p + n]
  {
    var m := text[p..p + n];
    assert m[0] == text[p];
    assert Filter(m) == Kept(m);
  }

  lemma PhoneNumberKept(text: seq<char>, p: int, telMatch: int)
    requires 0 <= p < |text|
    requires telMatch == 0 || (0 < telMatch && p + telMatch <= |text|)
    requires PhoneNumber(text, p, telMatch) != []
    ensures 0 < telMatch && IsPhoneChar(text[p]) && StartsNumber(text, p)
    ensures var r := PhoneNumber(text, p, telMatch);
      && Filter(text[p..p + telMatch]) == Kept(r)
      && EndsNumber(text, p + |r|)
  {
    var c := Filter(text[p..p + telMatch]).cut;
    assert PhoneNumber(text, p, telMatch) == Separated(text, p, c);
  }

  /** A match that passes every filter as it stands is returned whole. */
  lemma PhoneNumberWhole(text: seq<char>, p: int, telMatch: int)
    requires 0 <= p < |text| && 0 < telMatch && p + telMatch <= |text|
    requires TelShape(text[p..p + telMatch])
    requires IsPhoneChar(text[p]) && StartsNumber(text, p)
    requires var whole := text[p..p + telMatch];
      CountDigits(whole) <= MaxDigits && Count(whole, '/') <= 1 && Balanced(whole)
    requires EndsNumber(text, p + telMatch)
    ensures PhoneNumber(text, p, telMatch) == text[p..p + telMatch]
  {
    var m := text[p..p + telMatch];
    FilterRefuses(m);
    FilterMeaning(m);
    PhoneNumberOfKept(text, p, telMatch);
  }

  /** A match that the filters keep, at a place where a number may start and
      followed by an end separator, gives the number the filters keep. */
  lemma PhoneNumberOfKept(text: seq<char>, p: int, telMatch: int)
    requires 0 <= p < |text| && 0 < telMatch && p + telMatch <= |text|
    requires IsPhoneChar(text[p]) && StartsNumber(text, p)
    requires var f := Filter(text[p..p + telMatch]);
      f.Kept? && EndsNumber(text, p + |f.cut|)
    ensures PhoneNumber(text, p, telMatch) == Filter(text[p..p + telMatch]).cut
  {
  }
}
