/** JavaScript strings: sequences of UTF-16 code units. */
module JsText {

  newtype CodeUnit = x: int | 0 <= x < 0x10000
  type Text = seq<CodeUnit>

  predicate IsHighSurrogate(c: CodeUnit) {
    0xD800 <= c <= 0xDBFF
  }

  predicate IsLowSurrogate(c: CodeUnit) {
    0xDC00 <= c <= 0xDFFF
  }

  /** The default order of `Array.prototype.sort` on strings. */
  predicate Less(a: Text, b: Text) {
    b != [] && (a == [] || a[0] < b[0] || (a[0] == b[0] && Less(a[1..], b[1..])))
  }

  lemma {:induction false} LessTotal(a: Text, b: Text)
    ensures Less(a, b) || Less(b, a) || a == b
    ensures !(Less(a, b) && Less(b, a)) && !Less(a, a)
  {
    if a != [] && b != [] && a[0] == b[0] {
      LessTotal(a[1..], b[1..]);
      assert a == [a[0]] + a[1..] && b == [b[0]] + b[1..];
    }
    LessIrreflexive(a);
  }

  lemma {:induction false} LessIrreflexive(a: Text)
    ensures !Less(a, a)
  {
    if a != [] {
      LessIrreflexive(a[1..]);
    }
  }

  lemma {:induction false} LessTransitive(a: Text, b: Text, c: Text)
    requires Less(a, b) && Less(b, c)
    ensures Less(a, c)
  {
    if a != [] && a[0] == b[0] == c[0] {
      LessTransitive(a[1..], b[1..], c[1..]);
    }
  }

  predicate StartsWithPair(s: Text) {
    |s| >= 2 && IsHighSurrogate(s[0]) && IsLowSurrogate(s[1])
  }

  /** A surrogate is half of a pair. */
  predicate IsPairedAt(s: Text, i: nat)
    requires i < |s|
  {
    && (IsHighSurrogate(s[i]) ==> i + 1 < |s| && IsLowSurrogate(s[i + 1]))
    && (IsLowSurrogate(s[i]) ==> i > 0 && IsHighSurrogate(s[i - 1]))
  }

  predicate IsWellFormed(s: Text) {
    forall i :: 0 <= i < |s| ==> IsPairedAt(s, i)
  }

  /** Taking a first character, a pair or a single unit, off. */
  lemma TailWellFormed(s: Text, n: nat)
    requires s != [] && n == if StartsWithPair(s) then 2 else 1
    ensures IsWellFormed(s) <==> IsWellFormed(s[n..]) && (n == 1 ==> !IsHighSurrogate(s[0]) && !IsLowSurrogate(s[0]))
  {
    var t := s[n..];
    assert forall i :: 0 <= i < |t| ==> t[i] == s[i + n];
    if IsWellFormed(s) {
      assert IsPairedAt(s, 0);
      forall i | 0 <= i < |t| ensures IsPairedAt(t, i) {
        assert IsPairedAt(s, i + n) && IsPairedAt(s, i + n - 1);
      }
    }
    if IsWellFormed(t) && (n == 1 ==> !IsHighSurrogate(s[0]) && !IsLowSurrogate(s[0])) {
      forall i | 0 <= i < |s| ensures IsPairedAt(s, i) {
        if i >= n {
          assert IsPairedAt(t, i - n);
        }
      }
    }
  }
}
