/** The CORS allow-list: parsing the configured `CORS_DOMAINS` value into a
    clean list, and choosing the `Access-Control-Allow-Origin` answer. */
module Cors {
  import opened JavaStrings

  /** `Stream.distinct`: keeps the first occurrence of every element, in order. */
  function Distinct(s: seq<string>): (r: seq<string>)
    ensures NoDuplicates(r)
    ensures forall x :: x in r <==> x in s
    ensures |r| <= |s|
    ensures |s| > 0 ==> |r| > 0 && r[0] == s[0]
    decreases |s|
  {
    if s == [] then []
    else
      var d := Distinct(s[..|s| - 1]);
      var x := s[|s| - 1];
      if x in d then d else d + [x]
  }

  /** The index of the first occurrence of `x` in `s`. */
  function FirstIndex(s: seq<string>, x: string): (k: nat)
    requires x in s
    ensures k < |s| && s[k] == x && x !in s[..k]
  {
    if s[0] == x then 0
    else
      var k := FirstIndex(s[1..], x);
      assert s[..k + 1] == [s[0]] + s[1..][..k];
      k + 1
  }

  /** The first occurrence of an element of a prefix lies in that prefix. */
  lemma {:induction false} FirstIndexInPrefix(s: seq<string>, n: nat, x: string)
    requires n <= |s| && x in s[..n]
    ensures FirstIndex(s[..n], x) == FirstIndex(s, x)
  {
  }

  /** Every element of `r` occurs in `s`, and `r` lists them in the order
      of their first occurrence in `s`. */
  predicate FirstOccurrenceOrder(s: seq<string>, r: seq<string>) {
    && (forall x :: x in r ==> x in s)
    && forall i, j :: 0 <= i < j < |r| ==> FirstIndex(s, r[i]) < FirstIndex(s, r[j])
  }

  /** An order by first occurrence in a prefix is one in the whole sequence. */
  lemma {:induction false} OrderInPrefix(s: seq<string>, n: nat, r: seq<string>)
    requires n <= |s| && FirstOccurrenceOrder(s[..n], r)
    ensures FirstOccurrenceOrder(s, r)
    ensures forall x :: x in r ==> FirstIndex(s, x) < n
  {
    forall x | x in r ensures x in s && FirstIndex(s, x) == FirstIndex(s[..n], x) {
      assert x in s[..n];
      FirstIndexInPrefix(s, n, x);
    }
  }

  /** `distinct` keeps the elements in the order of their first occurrence. */
  lemma {:induction false} DistinctInOrder(s: seq<string>)
    ensures FirstOccurrenceOrder(s, Distinct(s))
    decreases |s|
  {
    if s != [] {
      var n := |s| - 1;
      var init, x := s[..n], s[n];
      var d, r := Distinct(init), Distinct(s);
      DistinctInOrder(init);
      OrderInPrefix(s, n, d);
      if x in d {
        assert r == d;
      } else {
        assert r == d + [x];
        assert FirstIndex(s, x) == n;
        forall i, j | 0 <= i < j < |r| ensures FirstIndex(s, r[i]) < FirstIndex(s, r[j]) {
          assert r[i] == d[i];
          if j < |d| {
            assert r[j] == d[j];
          }
        }
      }
    }
  }

  lemma {:induction false} DistinctKeepsDistinct(s: seq<string>)
    requires NoDuplicates(s)
    ensures Distinct(s) == s
    decreases |s|
  {
    if s != [] {
      var p := s[..|s| - 1];
      DistinctKeepsDistinct(p);
      assert s[|s| - 1] !in p;
      assert s == p + [s[|s| - 1]];
    }
  }

  /** Every char of `Trim(s)` comes from `s`. */
  lemma {:induction false} TrimIsPartOf(s: string)
    ensures forall c :: c in Trim(s) ==> c in s
  {
    var t := TrimStart(s);
    var r := TrimEnd(t);
    forall c | c in r ensures c in s {
      var i :| 0 <= i < |r| && r[i] == c;
      assert r[i] == t[i];
      assert t[i] == s[|s| - |t| + i];
    }
  }

  /** `filter(s -> s != null && !s.trim().isEmpty()).map(String::trim)`. */
  function TrimmedNonEmpty(pieces: seq<string>): (r: seq<string>)
    ensures forall i :: 0 <= i < |r| ==> IsTrimmed(r[i]) && |r[i]| > 0
    decreases |pieces|
  {
    if pieces == [] then []
    else
      var r := TrimmedNonEmpty(pieces[..|pieces| - 1]);
      var t := Trim(pieces[|pieces| - 1]);
      if t == "" then r else r + [t]
  }

  /** One more piece adds its trim at the end, unless that trim is empty. */
  lemma {:induction false} TrimmedNonEmptySnoc(pieces: seq<string>, x: string)
    ensures TrimmedNonEmpty(pieces + [x]) ==
              TrimmedNonEmpty(pieces) + (if Trim(x) == "" then [] else [Trim(x)])
  {
    assert (pieces + [x])[..|pieces|] == pieces;
  }

  /** Filtering and mapping works piece by piece, so it keeps the pieces'
      order: the cleaned entries of `a + b` are those of `a`, then those
      of `b`. */
  lemma {:induction false} TrimmedNonEmptyAppend(a: seq<string>, b: seq<string>)
    ensures TrimmedNonEmpty(a + b) == TrimmedNonEmpty(a) + TrimmedNonEmpty(b)
    decreases |b|
  {
    if b == [] {
      assert a + b == a;
    } else {
      var b', x := b[..|b| - 1], b[|b| - 1];
      var tail := if Trim(x) == "" then [] else [Trim(x)];
      assert a + b == (a + b') + [x] && b == b' + [x];
      TrimmedNonEmptyAppend(a, b');
      TrimmedNonEmptySnoc(a + b', x);
      TrimmedNonEmptySnoc(b', x);
      assert TrimmedNonEmpty(a + b) == TrimmedNonEmpty(a) + TrimmedNonEmpty(b') + tail;
    }
  }

  /** A piece with a non-empty trim at the end survives as the last entry;
      empty pieces at the end leave no entry. */
  lemma {:induction false} TrimmedNonEmptySingle(x: string)
    ensures TrimmedNonEmpty([x]) == if Trim(x) == "" then [] else [Trim(x)]
  {
    var none: seq<string> := [];
    assert [x][..0] == none;
  }

  /** Every piece whose trim is non-empty is kept, trimmed. */
  lemma {:induction false} TrimmedNonEmptyKeeps(pieces: seq<string>, i: nat)
    requires i < |pieces| && Trim(pieces[i]) != ""
    ensures Trim(pieces[i]) in TrimmedNonEmpty(pieces)
  {
    var a, p, c := pieces[..i], pieces[i], pieces[i + 1..];
    var t := Trim(p);
    assert pieces == a + [p] + c;
    TrimmedNonEmptySingle(p);
    TrimmedNonEmptyAppend(a, [p]);
    assert TrimmedNonEmpty(a + [p]) == TrimmedNonEmpty(a) + [t];
    TrimmedNonEmptyAppend(a + [p], c);
    assert TrimmedNonEmpty(pieces) == TrimmedNonEmpty(a) + [t] + TrimmedNonEmpty(c);
  }

  /** No entry is kept only when every piece is blank. */
  lemma {:induction false} NoneKeptAllBlank(pieces: seq<string>)
    requires TrimmedNonEmpty(pieces) == []
    ensures forall j :: 0 <= j < |pieces| ==> Trim(pieces[j]) == ""
  {
    forall j | 0 <= j < |pieces| ensures Trim(pieces[j]) == "" {
      if Trim(pieces[j]) != "" {
        TrimmedNonEmptyKeeps(pieces, j);
      }
    }
  }

  /** The first cleaned entry is the trim of the first piece whose trim is
      not empty. */
  lemma {:induction false} TrimmedNonEmptyFirst(pieces: seq<string>) returns (k: nat)
    requires TrimmedNonEmpty(pieces) != []
    ensures k < |pieces| && TrimmedNonEmpty(pieces)[0] == Trim(pieces[k])
    ensures forall j :: 0 <= j < k ==> Trim(pieces[j]) == ""
    decreases |pieces|
  {
    var n := |pieces| - 1;
    var init, x := pieces[..n], pieces[n];
    assert pieces == init + [x];
    TrimmedNonEmptySnoc(init, x);
    if TrimmedNonEmpty(init) != [] {
      k := TrimmedNonEmptyFirst(init);
      forall j | 0 <= j <= k ensures pieces[j] == init[j] {
      }
    } else {
      k := n;
      NoneKeptAllBlank(init);
      forall j | 0 <= j < k ensures pieces[j] == init[j] {
      }
    }
  }

  /** Trailing empty pieces leave no entry, so dropping them, as Java's
      `split` does, changes nothing after the blank filter. */
  lemma {:induction false} TrimmedNonEmptyIgnoresTrailingEmpty(pieces: seq<string>, n: nat)
    requires n <= |pieces| && forall i :: n <= i < |pieces| ==> pieces[i] == ""
    ensures TrimmedNonEmpty(pieces[..n]) == TrimmedNonEmpty(pieces)
    decreases |pieces| - n
  {
    if n < |pieces| {
      assert pieces[..n + 1] == pieces[..n] + [pieces[n]];
      TrimmedNonEmptyAppend(pieces[..n], [pieces[n]]);
      TrimmedNonEmptySingle(pieces[n]);
      assert Trim("") == "";
      TrimmedNonEmptyIgnoresTrailingEmpty(pieces, n + 1);
    } else {
      assert pieces[..n] == pieces;
    }
  }

  /** `x` is the non-empty trim of one of the pieces. */
  predicate IsTrimOfSome(pieces: seq<string>, x: string) {
    x != "" && exists i :: 0 <= i < |pieces| && Trim(pieces[i]) == x
  }

  /** Every cleaned entry is the non-empty trim of some piece: the one at
      the returned index. */
  lemma {:induction false} TrimmedNonEmptyOrigin(pieces: seq<string>, x: string) returns (i: nat)
    requires x in TrimmedNonEmpty(pieces)
    ensures i < |pieces| && Trim(pieces[i]) == x
    decreases |pieces|
  {
    var init := pieces[..|pieces| - 1];
    if x in TrimmedNonEmpty(init) {
      i := TrimmedNonEmptyOrigin(init, x);
      assert pieces[i] == init[i];
    } else {
      i := |pieces| - 1;
    }
  }

  /** Trimming never introduces a char, so a separator absent from every
      piece is absent from every cleaned entry. */
  lemma {:induction false} TrimmedNonEmptyAvoids(pieces: seq<string>, x: string, c: char)
    requires forall i :: 0 <= i < |pieces| ==> c !in pieces[i]
    requires x in TrimmedNonEmpty(pieces)
    ensures c !in x
  {
    var i := TrimmedNonEmptyOrigin(pieces, x);
    TrimIsPartOf(pieces[i]);
  }

  /** The allow-list parsed once from the `CORS_DOMAINS` configuration value:
      split at commas, blank entries dropped, entries trimmed, duplicates
      removed keeping the first. */
  function ParseDomains(raw: string): (domains: seq<string>)
    ensures forall i :: 0 <= i < |domains| ==> IsTrimmed(domains[i]) && |domains[i]| > 0
    ensures NoDuplicates(domains)
  {
    var cleaned := TrimmedNonEmpty(JavaSplit(raw, ','));
    var domains := Distinct(cleaned);
    assert forall i :: 0 <= i < |domains| ==> domains[i] in cleaned;
    domains
  }

  /** Java's `split` drops the trailing empty pieces that `Split` keeps;
      after the blank filter both give the same entries. */
  lemma {:induction false} ParseDomainsOfSplit(raw: string)
    ensures ParseDomains(raw) == Distinct(TrimmedNonEmpty(Split(raw, ',')))
  {
    var pieces := Split(raw, ',');
    JavaSplitIsSplitPrefix(raw, ',');
    TrimmedNonEmptyIgnoresTrailingEmpty(pieces, |JavaSplit(raw, ',')|);
  }

  /** The cleaned list holds exactly the non-blank pieces, trimmed. */
  lemma {:induction false} CleanedMembers(pieces: seq<string>, x: string)
    ensures x in Distinct(TrimmedNonEmpty(pieces)) <==> IsTrimOfSome(pieces, x)
  {
    if x in TrimmedNonEmpty(pieces) {
      var i := TrimmedNonEmptyOrigin(pieces, x);
      assert 0 <= i < |pieces| && Trim(pieces[i]) == x;
    }
    if IsTrimOfSome(pieces, x) {
      var i :| 0 <= i < |pieces| && Trim(pieces[i]) == x;
      TrimmedNonEmptyKeeps(pieces, i);
    }
  }

  /** The parsed list holds exactly the non-blank pieces of the configuration
      value, trimmed, and no entry holds a comma. */
  lemma {:induction false} ParseDomainsMembers(raw: string, x: string)
    ensures x in ParseDomains(raw) <==> IsTrimOfSome(Split(raw, ','), x)
    ensures x in ParseDomains(raw) ==> ',' !in x
  {
    var pieces := Split(raw, ',');
    ParseDomainsOfSplit(raw);
    CleanedMembers(pieces, x);
    if x in ParseDomains(raw) {
      TrimmedNonEmptyAvoids(pieces, x, ',');
    }
  }

  /** The cleaned list is empty exactly when every piece is blank;
      otherwise its first entry is the trim of the first piece `k` that is
      not blank. */
  lemma {:induction false} CleanedFirst(pieces: seq<string>) returns (k: nat)
    ensures var d := Distinct(TrimmedNonEmpty(pieces));
            && (d == [] <==> forall i :: 0 <= i < |pieces| ==> Trim(pieces[i]) == "")
            && (d != [] ==>
                  && k < |pieces| && d[0] == Trim(pieces[k])
                  && forall j :: 0 <= j < k ==> Trim(pieces[j]) == "")
  {
    var cleaned := TrimmedNonEmpty(pieces);
    k := 0;
    if cleaned != [] {
      k := TrimmedNonEmptyFirst(pieces);
      var i := k;
      assert Trim(pieces[i]) != "";
    } else {
      NoneKeptAllBlank(pieces);
    }
  }

  /** The list is empty exactly when every comma-separated piece is blank;
      otherwise its first entry, the default answer of `getAllowOrigin`, is
      the trim of the first piece that is not blank (piece `k`). */
  lemma {:induction false} ParseDomainsFirst(raw: string) returns (k: nat)
    ensures var pieces := Split(raw, ',');
            && (ParseDomains(raw) == [] <==> forall i :: 0 <= i < |pieces| ==> Trim(pieces[i]) == "")
            && (ParseDomains(raw) != [] ==>
                  && k < |pieces| && ParseDomains(raw)[0] == Trim(pieces[k])
                  && forall j :: 0 <= j < k ==> Trim(pieces[j]) == "")
  {
    ParseDomainsOfSplit(raw);
    k := CleanedFirst(Split(raw, ','));
  }

  const Localhost: string := "http://localhost"

  /** `getAllowOrigin`; the request origin is `None` when the header value is
      null. The result is `None` exactly where `domains.get(0)` would throw
      because the allow-list is empty. */
  function AllowOrigin(domains: seq<string>, origin: Option<string>): (r: Option<string>)
    ensures r.Some? ==> r == origin || (|domains| > 0 && r.value == domains[0])
    ensures r.None? <==> |domains| == 0 && (origin.None? || IsBlank(origin.value)
                                            || !(StartsWith(origin.value, Localhost) || origin.value in domains))
  {
    if origin.None? || IsBlank(origin.value) then
      if |domains| > 0 then Some(domains[0]) else None
    else if IndexOf(origin.value, Localhost) == 0 || origin.value in domains then
      origin
    else if |domains| > 0 then Some(domains[0])
    else None
  }

  /** A request origin is echoed back exactly when it is a localhost origin,
      a listed non-blank origin, or the default (first) entry itself. */
  lemma {:induction false} AllowOriginEchoes(domains: seq<string>, o: string)
    ensures AllowOrigin(domains, Some(o)) == Some(o) <==>
              || StartsWith(o, Localhost)
              || (o in domains && !IsBlank(o))
              || (|domains| > 0 && o == domains[0])
  {
    if StartsWith(o, Localhost) {
      assert o[0] == Localhost[0] == 'h';
      assert !IsJavaWhitespace(o[0]);
    }
  }
}
