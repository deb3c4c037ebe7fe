// What an e-mail address found in running text looks like: a local part of
// dot-atom characters (section 3.2.4 of RFC 2822), one '@', and a domain of
// letters, digits, dots and hyphens that holds at least one dot.
module EmailRules {
  import opened CharClass

  /** text[s..e] is an address whose '@' is at index p, at most maxLen long. */
  ghost predicate EmailAt(text: seq<char>, s: int, p: int, e: int, maxLen: int) {
    && 0 <= s < p && p + 1 < e <= |text|
    && text[p] == '@'
    && (forall k :: s <= k < p ==> IsLocalPartChar(text[k]))
    && (forall k :: p < k < e ==> IsDomainChar(text[k]))
    && IsLetterOrNumber(text[s]) && IsLetterOrNumber(text[e - 1])
    && (exists k :: p < k < e && text[k] == '.')
    && e - s <= maxLen
  }

  /** The shape of such an address seen as a string of its own. */
  lemma EmailShape(text: seq<char>, s: int, p: int, e: int, maxLen: int)
    requires EmailAt(text, s, p, e, maxLen)
    ensures var a := text[s..e];
      && Count(a, '@') == 1 && a[p - s] == '@'
      && (forall k :: 0 <= k < p - s ==> a[k] != '@')
      && p - s >= 1 && e - (p + 1) >= 1
      && IsLetterOrNumber(a[0]) && IsLetterOrNumber(a[|a| - 1])
      && '.' in a[p - s + 1..]
      && |a| <= maxLen
  {
    var a := text[s..e];
    assert a[0] == text[s] && a[|a| - 1] == text[e - 1] && a[p - s] == '@';
    EmailSplit(text, s, p, e, maxLen);
    SingleAt(text[s..p], text[p + 1..e]);
    DomainDot(text, s, p, e, maxLen);
  }

  /** An address is its local part, the '@' and its domain, and neither
      part holds an '@'. */
  lemma EmailSplit(text: seq<char>, s: int, p: int, e: int, maxLen: int)
    requires EmailAt(text, s, p, e, maxLen)
    ensures text[s..e] == text[s..p] + ['@'] + text[p + 1..e]
    ensures '@' !in text[s..p] && '@' !in text[p + 1..e]
  {
    NoAtIn(text, s, p);
    NoAtIn(text, p + 1, e);
  }

  lemma SingleAt(local: seq<char>, domain: seq<char>)
    requires '@' !in local && '@' !in domain
    ensures Count(local + ['@'] + domain, '@') == 1
    ensures forall k :: 0 <= k < |local| ==> (local + ['@'] + domain)[k] != '@'
  {
    var la := local + ['@'];
    CountAppend(local, ['@'], '@');
    CountAppend(la, domain, '@');
    assert Count(['@'], '@') == 1 by {
      assert ['@'][1..] == [];
    }
    CountZero(local, '@');
    CountZero(domain, '@');
    forall k | 0 <= k < |local| ensures (la + domain)[k] != '@' {
      assert (la + domain)[k] == local[k];
    }
  }

  lemma DomainDot(text: seq<char>, s: int, p: int, e: int, maxLen: int)
    requires EmailAt(text, s, p, e, maxLen)
    ensures '.' in text[s..e][p - s + 1..]
  {
    var d :| p < d < e && text[d] == '.';
    assert text[s..e][p - s + 1..] == text[p + 1..e];
    assert text[p + 1..e][d - p - 1] == '.';
  }

  /** Neither part of an address can hold an '@'. */
  lemma NoAtIn(text: seq<char>, i: int, j: int)
    requires 0 <= i <= j <= |text|
    requires forall k :: i <= k < j ==> IsLocalPartChar(text[k]) || IsDomainChar(text[k])
    ensures '@' !in text[i..j]
  {
    forall k | i <= k < j ensures text[k] != '@' {
      assert IsLocalPartChar(text[k]) || IsDomainChar(text[k]);
    }
  }

  /** Where a walk over the characters around an '@' ends: at another
      '@', which rules the address out, or at an index. */
  datatype Reach = MetAt | StopsAt(index: int)

  /** The walk of getEmailAddress back from index s over dot-atom
      characters and '@'; StopsAt gives the index of the first character
      it passed over. */
  function LocalWalk(text: seq<char>, s: int): (r: Reach)
    requires -1 <= s < |text|
    ensures r.StopsAt? ==> 0 <= r.index <= s + 1
    decreases s + 1
  {
    if s >= 0 && IsAscii(text[s]) && (IsLetterOrNumber(text[s]) || text[s] == '@' || IsDotAtomSpecial(text[s])) then
      if text[s] == '@' then MetAt else LocalWalk(text, s - 1)
    else StopsAt(s + 1)
  }

  /** The walk forward from index s to the first letter or digit before
      index hi. */
  function SkipToAlnum(text: seq<char>, s: int, hi: int): (r: int)
    requires 0 <= s <= hi <= |text|
    ensures s <= r <= hi && (r < hi ==> IsLetterOrNumber(text[r]))
    decreases hi - s
  {
    if s < hi && !IsLetterOrNumber(text[s]) then SkipToAlnum(text, s + 1, hi) else s
  }

  /** The walk of getEmailAddress forward from index e over letters,
      digits, '.', '-' and '@'; StopsAt gives the index it stops at. */
  function DomainWalk(text: seq<char>, e: int): (r: Reach)
    requires 0 <= e <= |text|
    ensures r.StopsAt? ==> e <= r.index <= |text|
    decreases |text| - e
  {
    if e < |text| && (IsLetterOrNumber(text[e]) || text[e] == '@' || text[e] == '.' || text[e] == '-') then
      if text[e] == '@' then MetAt else DomainWalk(text, e + 1)
    else StopsAt(e)
  }

  /** The index of the first '.' in text[from..hi], or |text| when there is
      none. */
  function FirstDot(text: seq<char>, from: int, hi: int): (r: int)
    requires 0 <= from <= hi <= |text|
    ensures r == |text| || from <= r < hi
    decreases hi - from
  {
    if hi == from then |text|
    else
      var d := FirstDot(text, from, hi - 1);
      if d == |text| && text[hi - 1] == '.' then hi - 1 else d
  }

  /** The walk back from index e to just after the last letter or digit
      that follows index at. */
  function BackToAlnum(text: seq<char>, at: int, e: int): (r: int)
    requires 0 <= at <= e <= |text|
    ensures at <= r <= e && (r > at ==> IsLetterOrNumber(text[r - 1]))
    decreases e - at
  {
    if e > at && !IsLetterOrNumber(text[e - 1]) then BackToAlnum(text, at, e - 1) else e
  }

  /** What getEmailAddress finds around index at: no address, or the
      address text[start..end]. */
  datatype EmailSpan = NoAddress | Address(start: int, end: int)

  /** getEmailAddress at index at: walk back over the local part (another
      '@' there rules the address out) and forward to its first letter or
      digit; walk forward over the domain (another '@' there rules it out)
      and back to its last letter or digit; the domain must hold a dot
      before that point and the whole be at most maxLen long. */
  function EmailAround(text: seq<char>, at: int, maxLen: int): (r: EmailSpan)
    requires 0 <= at < |text|
    ensures r.Address? ==> 0 <= r.start < at < r.end <= |text|
  {
    if text[at] != '@' then NoAddress
    else match LocalWalk(text, at - 1)
      case MetAt => NoAddress
      case StopsAt(s0) =>
        var s := SkipToAlnum(text, s0, at);
        if s == at then NoAddress
        else match DomainWalk(text, at + 1)
          case MetAt => NoAddress
          case StopsAt(e0) =>
            var e := BackToAlnum(text, at, e0);
            if e == at || FirstDot(text, at + 1, e0) >= e || e - s > maxLen then NoAddress
            else Address(s, e)
  }

  /** The local-part walk passes over dot-atom characters only. */
  lemma {:induction false} LocalWalkChars(text: seq<char>, s: int)
    requires -1 <= s < |text|
    ensures var r := LocalWalk(text, s);
      r.StopsAt? ==> forall k :: r.index <= k <= s ==> IsLocalPartChar(text[k])
    decreases s + 1
  {
    if s >= 0 && IsAscii(text[s]) && (IsLetterOrNumber(text[s]) || IsDotAtomSpecial(text[s])) {
      LocalWalkChars(text, s - 1);
    }
  }

  /** The domain walk passes over letters, digits, dots and hyphens only. */
  lemma {:induction false} DomainWalkChars(text: seq<char>, e: int)
    requires 0 <= e <= |text|
    ensures var r := DomainWalk(text, e);
      r.StopsAt? ==> forall k :: e <= k < r.index ==> IsDomainChar(text[k])
    decreases |text| - e
  {
    if e < |text| && (IsLetterOrNumber(text[e]) || text[e] == '.' || text[e] == '-') {
      DomainWalkChars(text, e + 1);
    }
  }

  /** FirstDot finds the first dot, and finds none only where there is
      none. */
  lemma {:induction false} FirstDotIsFirst(text: seq<char>, from: int, hi: int)
    requires 0 <= from <= hi <= |text|
    ensures var r := FirstDot(text, from, hi);
      && (r == |text| <==> forall k :: from <= k < hi ==> text[k] != '.')
      && (r != |text| ==> text[r] == '.' && forall k :: from <= k < r ==> text[k] != '.')
    decreases hi - from
  {
    if hi > from {
      FirstDotIsFirst(text, from, hi - 1);
    }
  }

  /** Every address getEmailAddress finds is well formed. */
  lemma EmailAroundSound(text: seq<char>, at: int, maxLen: int)
    requires 0 <= at < |text|
    ensures var r := EmailAround(text, at, maxLen);
      r.Address? ==> EmailAt(text, r.start, at, r.end, maxLen)
  {
    var r := EmailAround(text, at, maxLen);
    if r.Address? {
      var s0 := LocalWalk(text, at - 1).index;
      var e0 := DomainWalk(text, at + 1).index;
      var d := FirstDot(text, at + 1, e0);
      LocalWalkChars(text, at - 1);
      DomainWalkChars(text, at + 1);
      FirstDotIsFirst(text, at + 1, e0);
      assert at < d < r.end && text[d] == '.';
      assert !IsLetterOrNumber('@');
    }
  }
}
