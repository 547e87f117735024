/** The admin console (frontend Admin.jsx): the Roman-numeral display of
    class names, the class filter of the student list, the grouping of the
    list by class and the order of the groups, the seven-slot subject form
    used to edit a record, and the pass/fail badge. */
module Admin {
  import opened Text
  import opened Records
  import opened Seqs
  import opened Server
  import opened Report

  // ---------------------------------------------------------------------
  // Roman numerals for the classes 1 to 12

  const ArabicToRoman: map<string, string> := map[
    "1" := "I", "2" := "II", "3" := "III", "4" := "IV", "5" := "V", "6" := "VI",
    "7" := "VII", "8" := "VIII", "9" := "IX", "10" := "X", "11" := "XI", "12" := "XII"]

  const RomanToArabic: map<string, string> := map[
    "I" := "1", "II" := "2", "III" := "3", "IV" := "4", "V" := "5", "VI" := "6",
    "VII" := "7", "VIII" := "8", "IX" := "9", "X" := "10", "XI" := "11", "XII" := "12"]

  /** Reading a class number as a numeral and back gives the number. */
  lemma ArabicRomanRoundTrip(k: string)
    requires k in ArabicToRoman
    ensures ArabicToRoman[k] in RomanToArabic && RomanToArabic[ArabicToRoman[k]] == k
  {
    assert k in {"1", "2", "3", "4", "5", "6", "7", "8", "9", "10", "11", "12"};
  }

  /** Reading a numeral as a class number and back gives the numeral. */
  lemma RomanArabicRoundTrip(k: string)
    requires k in RomanToArabic
    ensures RomanToArabic[k] in ArabicToRoman && ArabicToRoman[RomanToArabic[k]] == k
  {
    assert k in {"I", "II", "III", "IV", "V", "VI", "VII", "VIII", "IX", "X", "XI", "XII"};
  }

  /** The class numbers of the numerals are strings of digits. */
  lemma RomanToArabicDigits(k: string)
    requires k in RomanToArabic
    ensures forall i :: 0 <= i < |RomanToArabic[k]| ==> IsDigit(RomanToArabic[k][i])
  {
    assert k in {"I", "II", "III", "IV", "V", "VI", "VII", "VIII", "IX", "X", "XI", "XII"};
  }

  /** The characters the `.` of a JavaScript regular expression does not
      match. */
  predicate IsLineTerminator(c: char) {
    c == '\n' || c == '\r' || c == '\U{2028}' || c == '\U{2029}'
  }

  /** `toRomanClass`: a class name that `/^(\d+)(.*)$/` splits into digits and
      a suffix shows the Roman numeral of the digits (or the digits
      themselves outside 1 to 12) followed by the suffix; any other name is
      shown as it is. */
  function ToRomanClass(className: string): (r: string)
    ensures className == [] || !IsDigit(className[0]) ==> r == className
  {
    if className == "" then className
    else
      var num := LeadingDigits(className);
      var suffix := className[|num|..];
      if num != "" && forall i :: 0 <= i < |suffix| ==> !IsLineTerminator(suffix[i]) then
        (if num in ArabicToRoman then ArabicToRoman[num] else num) + suffix
      else
        className
  }

  /** Digits followed by a suffix that starts with no digit and holds no line
      break are shown as the numeral of the digits, then the same suffix. */
  lemma RomanClassOf(digits: string, suffix: string)
    requires digits != [] && forall i :: 0 <= i < |digits| ==> IsDigit(digits[i])
    requires suffix == [] || !IsDigit(suffix[0])
    requires forall i :: 0 <= i < |suffix| ==> !IsLineTerminator(suffix[i])
    ensures ToRomanClass(digits + suffix) ==
              (if digits in ArabicToRoman then ArabicToRoman[digits] else digits) + suffix
  {
    LeadingDigitsOf(digits, suffix);
    assert (digits + suffix)[|digits|..] == suffix;
  }

  /** A line break after the digits stops `.*` from reaching the end, so the
      pattern does not match and the name is shown as it is. */
  lemma RomanClassLineBreak(digits: string, suffix: string, k: nat)
    requires forall i :: 0 <= i < |digits| ==> IsDigit(digits[i])
    requires suffix == [] || !IsDigit(suffix[0])
    requires k < |suffix| && IsLineTerminator(suffix[k])
    ensures ToRomanClass(digits + suffix) == digits + suffix
  {
    LeadingDigitsOf(digits, suffix);
    assert (digits + suffix)[|digits|..] == suffix;
  }

  /** `classMatchesFilter`. */
  function ClassMatchesFilter(className: string, filter: string): (b: bool)
    ensures filter == "" ==> b
    ensures Contains(ToLower(className), ToLower(filter)) ==> b
    ensures filter != "" && !Contains(ToLower(className), ToLower(filter))
            && ToUpper(Trim(filter)) in RomanToArabic ==>
              (b <==> Contains(className, RomanToArabic[ToUpper(Trim(filter))]))
    ensures filter != "" && !Contains(ToLower(className), ToLower(filter))
            && ToUpper(Trim(filter)) !in RomanToArabic ==>
              (b <==> Contains(ToUpper(ToRomanClass(className)), ToUpper(Trim(filter))))
  {
    if filter == "" then true
    else
      var f := ToUpper(Trim(filter));
      if Contains(ToLower(className), ToLower(filter)) then true
      else if f in RomanToArabic then
        RomanToArabicDigits(f);
        ContainsDigitsIgnoresCase(className, RomanToArabic[f]);
        ToLowerDigits(RomanToArabic[f]);
        Contains(ToLower(className), ToLower(RomanToArabic[f]))
      else
        Contains(ToUpper(ToRomanClass(className)), f)
  }

  /** Lower-casing a text neither creates nor destroys an occurrence of a
      string of digits. */
  lemma ContainsDigitsIgnoresCase(s: string, t: string)
    requires forall i :: 0 <= i < |t| ==> IsDigit(t[i])
    ensures Contains(ToLower(s), t) == Contains(s, t)
  {
    if Contains(ToLower(s), t) {
      var i :| OccursAt(ToLower(s), t, i);
      OccursIgnoresCase(s, t, i);
    }
    if Contains(s, t) {
      var i :| OccursAt(s, t, i);
      OccursIgnoresCase(s, t, i);
    }
  }

  lemma OccursIgnoresCase(s: string, t: string, i: int)
    requires forall j :: 0 <= j < |t| ==> IsDigit(t[j])
    requires 0 <= i && i + |t| <= |s|
    ensures OccursAt(ToLower(s), t, i) <==> OccursAt(s, t, i)
  {
    var lower := ToLower(s)[i..i + |t|];
    var plain := s[i..i + |t|];
    forall j | 0 <= j < |t| ensures lower[j] == t[j] <==> plain[j] == t[j] {
      assert lower[j] == LowerChar(plain[j]);
    }
    assert lower == t <==> plain == t;
  }

  /** A Roman filter matches through its Arabic number, as a substring: a
      numeral finds every class whose name starts with its number, so "I"
      finds the classes 1, 10, 11 and 12. */
  lemma NumeralFilterFindsPrefix(className: string, filter: string)
    requires filter != "" && Trim(filter) == filter && ToUpper(filter) in RomanToArabic
    requires RomanToArabic[ToUpper(filter)] <= className
    ensures ClassMatchesFilter(className, filter)
  {
    var arabic := RomanToArabic[ToUpper(filter)];
    assert OccursAt(className, arabic, 0);
  }

  // ---------------------------------------------------------------------
  // The student list: filter, group by class, order the groups

  /** The predicate the list filters with. */
  function ClassFilter(filter: string): Record -> bool {
    (r: Record) => ClassMatchesFilter(r.className, filter)
  }

  /** `allRecords.filter(r => classMatchesFilter(r.className, classFilter))`. */
  function Shown(allRecords: seq<Record>, filter: string): (r: seq<Record>)
    ensures forall i :: 0 <= i < |r| ==> ClassMatchesFilter(r[i].className, filter)
  {
    Filter(allRecords, ClassFilter(filter))
  }

  /** The list shows exactly the records whose class matches the filter. */
  lemma ShownMembers(allRecords: seq<Record>, filter: string, x: Record)
    ensures x in Shown(allRecords, filter) <==> x in allRecords && ClassMatchesFilter(x.className, filter)
  {
    FilterMembers(allRecords, ClassFilter(filter), x);
  }

  /** The group a record goes into. */
  function GroupKey(r: Record): string {
    if r.className == "" then "Unknown" else r.className
  }

  function InGroup(key: string): Record -> bool {
    (r: Record) => GroupKey(r) == key
  }

  /** The records of one group, in list order. */
  function RecordsOfClass(s: seq<Record>, key: string): (g: seq<Record>)
    ensures forall i :: 0 <= i < |g| ==> GroupKey(g[i]) == key
  {
    Filter(s, InGroup(key))
  }

  lemma RecordsOfClassSnoc(s: seq<Record>, r: Record, key: string)
    ensures RecordsOfClass(s + [r], key) == RecordsOfClass(s, key) + if GroupKey(r) == key then [r] else []
  {
    FilterAppend(s, [r], InGroup(key));
    assert [r][1..] == [];
  }

  function KeySet(s: seq<Record>): set<string> {
    set r | r in s :: GroupKey(r)
  }

  lemma RecordsOfAbsentClass(s: seq<Record>, key: string)
    requires key !in KeySet(s)
    ensures RecordsOfClass(s, key) == []
  {
    forall i | 0 <= i < |s| ensures !InGroup(key)(s[i]) {
      assert s[i] in s;
    }
    FilterNone(s, InGroup(key));
  }

  /** The group keys in the order their first record appears: the insertion
      order of the `groups` object. */
  function FirstAppearance(s: seq<Record>): (keys: seq<string>)
    ensures |keys| <= |s|
  {
    if s == [] then []
    else
      var keys := FirstAppearance(s[..|s| - 1]);
      var k := GroupKey(s[|s| - 1]);
      if k in keys then keys else keys + [k]
  }

  /** Every class of the list is among its keys exactly once, and nothing
      else is. */
  lemma {:induction false} FirstAppearanceOnce(s: seq<Record>, k: string)
    ensures multiset(FirstAppearance(s))[k] == if k in KeySet(s) then 1 else 0
  {
    if s != [] {
      var init := s[..|s| - 1];
      var last := GroupKey(s[|s| - 1]);
      assert s == init + [s[|s| - 1]];
      assert KeySet(s) == KeySet(init) + {last};
      FirstAppearanceOnce(init, k);
      FirstAppearanceOnce(init, last);
    }
  }

  /** The keys and the `groups` object after the records of `s` have been
      pushed one by one, each onto the list of its class, a list being
      created the first time its class appears. */
  function Grouping(s: seq<Record>): (seq<string>, map<string, seq<Record>>) {
    if s == [] then ([], map[])
    else
      var (keys, groups) := Grouping(s[..|s| - 1]);
      var r := s[|s| - 1];
      var key := GroupKey(r);
      (if key in groups then keys else keys + [key],
       groups[key := (if key in groups then groups[key] else []) + [r]])
  }

  /** The grouping has a group for each class of the list and no other. */
  lemma {:induction false} GroupingKeySet(s: seq<Record>)
    ensures Grouping(s).1.Keys == KeySet(s)
  {
    if s != [] {
      var i := |s| - 1;
      assert s[..i + 1] == s;
      GroupingKeySet(s[..i]);
      KeySetStep(s, i);
    }
  }

  /** The grouping lists the classes in order of first appearance. */
  lemma {:induction false} GroupingKeyOrder(s: seq<Record>)
    ensures Grouping(s).0 == FirstAppearance(s)
  {
    if s != [] {
      var i := |s| - 1;
      assert s[..i + 1] == s;
      GroupingKeyOrder(s[..i]);
      GroupingKeySet(s[..i]);
      KeysStep(s, i, Grouping(s[..i]).0, Grouping(s[..i]).1);
    }
  }

  /** The grouping puts every record in the group of its class, in list
      order. */
  lemma {:induction false} GroupingIsByClass(s: seq<Record>)
    ensures forall k :: k in Grouping(s).1 ==> Grouping(s).1[k] == RecordsOfClass(s, k)
  {
    if s != [] {
      var i := |s| - 1;
      assert s[..i + 1] == s;
      GroupingIsByClass(s[..i]);
      GroupingKeySet(s[..i]);
      GroupsStep(s, i, Grouping(s[..i]).1);
    }
  }

  /** One step of the grouping: the keys, the key set and the groups of a
      list extended by one record. */
  lemma KeySetStep(s: seq<Record>, i: nat)
    requires i < |s|
    ensures KeySet(s[..i + 1]) == KeySet(s[..i]) + {GroupKey(s[i])}
  {
    assert s[..i + 1] == s[..i] + [s[i]];
  }

  lemma KeysStep(s: seq<Record>, i: nat, keys: seq<string>, groups: map<string, seq<Record>>)
    requires i < |s|
    requires keys == FirstAppearance(s[..i]) && groups.Keys == KeySet(s[..i])
    ensures var key := GroupKey(s[i]);
            FirstAppearance(s[..i + 1]) == if key in groups then keys else keys + [key]
  {
    var key := GroupKey(s[i]);
    assert s[..i + 1][..i] == s[..i];
    FirstAppearanceOnce(s[..i], key);
    assert key in keys <==> multiset(keys)[key] > 0;
  }

  lemma GroupsStep(s: seq<Record>, i: nat, groups: map<string, seq<Record>>)
    requires i < |s|
    requires groups.Keys == KeySet(s[..i])
    requires forall k :: k in groups ==> groups[k] == RecordsOfClass(s[..i], k)
    ensures var key := GroupKey(s[i]);
            var groups' := groups[key := (if key in groups then groups[key] else []) + [s[i]]];
            forall k :: k in groups' ==> groups'[k] == RecordsOfClass(s[..i + 1], k)
  {
    var r := s[i];
    var key := GroupKey(r);
    var groups' := groups[key := (if key in groups then groups[key] else []) + [r]];
    assert s[..i + 1] == s[..i] + [r];
    forall k | k in groups' ensures groups'[k] == RecordsOfClass(s[..i + 1], k) {
      RecordsOfClassSnoc(s[..i], r, k);
      if k == key && key !in groups {
        RecordsOfAbsentClass(s[..i], key);
      }
    }
  }

  /** The `forEach` loop that builds `groups`. */
  method GroupByClass(filtered: seq<Record>) returns (keys: seq<string>, groups: map<string, seq<Record>>)
    ensures keys == FirstAppearance(filtered)
    ensures groups.Keys == KeySet(filtered)
    ensures forall k :: k in groups ==> groups[k] == RecordsOfClass(filtered, k)
  {
    keys, groups := [], map[];
    var i := 0;
    while i < |filtered|
      invariant 0 <= i <= |filtered|
      invariant (keys, groups) == Grouping(filtered[..i])
    {
      var r := filtered[i];
      var key := GroupKey(r);
      assert filtered[..i + 1][..i] == filtered[..i];
      var group := if key in groups then groups[key] else [];
      if key !in groups {
        keys := keys + [key];
      }
      groups := groups[key := group + [r]];
      i := i + 1;
    }
    assert filtered[..i] == filtered;
    GroupingKeyOrder(filtered);
    GroupingKeySet(filtered);
    GroupingIsByClass(filtered);
  }

  /** The sum of the sizes of the groups named by `keys`. */
  function GroupTotal(s: seq<Record>, keys: seq<string>): nat {
    if keys == [] then 0 else |RecordsOfClass(s, keys[0])| + GroupTotal(s, keys[1..])
  }

  lemma {:induction false} GroupTotalEmpty(keys: seq<string>)
    ensures GroupTotal([], keys) == 0
  {
    if keys != [] {
      GroupTotalEmpty(keys[1..]);
    }
  }

  lemma {:induction false} GroupTotalSnoc(s: seq<Record>, r: Record, keys: seq<string>)
    ensures GroupTotal(s + [r], keys) == GroupTotal(s, keys) + multiset(keys)[GroupKey(r)]
  {
    if keys != [] {
      assert keys == [keys[0]] + keys[1..];
      RecordsOfClassSnoc(s, r, keys[0]);
      GroupTotalSnoc(s, r, keys[1..]);
    }
  }

  /** Every record lands in exactly one group: the sizes of the groups add
      up to the length of the list when each class of the list is named once. */
  lemma {:induction false} GroupsPartition(s: seq<Record>, keys: seq<string>)
    requires forall k :: k in KeySet(s) ==> multiset(keys)[k] == 1
    ensures GroupTotal(s, keys) == |s|
  {
    if s == [] {
      GroupTotalEmpty(keys);
    } else {
      var init := s[..|s| - 1];
      var r := s[|s| - 1];
      assert s == init + [r];
      assert KeySet(init) <= KeySet(s);
      GroupsPartition(init, keys);
      GroupTotalSnoc(init, r, keys);
      assert GroupKey(r) in KeySet(s);
    }
  }

  /** The sign `parseInt` accepts in front of the digits. */
  predicate IsSign(c: char) {
    c == '+' || c == '-'
  }

  /** `parseInt(s)` without a radix, for decimal text: leading whitespace, an
      optional sign, then the digits; None stands for NaN. */
  function ParseInt(s: string): (r: Option<int>)
    ensures r.Some? ==> exists i :: 0 <= i < |s| && IsDigit(s[i])
  {
    var t := TrimStart(s);
    var r := ParseSigned(t);
    assert r.Some? ==> Unsigned(t)[0] in t;
    r
  }

  /** The text after the sign, if there is one. */
  function Unsigned(t: string): (u: string)
    ensures u == t || (t != [] && u == t[1..])
  {
    if t != [] && IsSign(t[0]) then t[1..] else t
  }

  /** `parseInt` once the leading whitespace is gone. */
  function ParseSigned(t: string): (r: Option<int>)
    ensures r.Some? <==> LeadingDigits(Unsigned(t)) != []
  {
    var digits := LeadingDigits(Unsigned(t));
    if digits == [] then None
    else if t[0] == '-' then Some(-(DigitsValue(digits) as int))
    else Some(DigitsValue(digits))
  }

  /** The value of a run of digits, negated after a minus sign. */
  function Signed(sign: string, digits: string): int
    requires forall i :: 0 <= i < |digits| ==> IsDigit(digits[i])
  {
    if sign == "-" then -(DigitsValue(digits) as int) else DigitsValue(digits)
  }

  /** Whitespace, an optional sign and a run of digits, followed by anything
      that is not a digit: `parseInt` reads the signed value of the digits. */
  lemma ParseIntOf(ws: string, sign: string, digits: string, rest: string)
    requires forall i :: 0 <= i < |ws| ==> IsSpace(ws[i])
    requires sign == "" || sign == "+" || sign == "-"
    requires digits != [] && forall i :: 0 <= i < |digits| ==> IsDigit(digits[i])
    requires rest == [] || !IsDigit(rest[0])
    ensures ParseInt(ws + sign + digits + rest) == Some(Signed(sign, digits))
  {
    var t := sign + digits + rest;
    assert ws + sign + digits + rest == ws + t;
    TrimStartAfter(ws, t);
    ParseSignedOf(sign, digits, rest);
  }

  lemma ParseSignedOf(sign: string, digits: string, rest: string)
    requires sign == "" || sign == "+" || sign == "-"
    requires digits != [] && forall i :: 0 <= i < |digits| ==> IsDigit(digits[i])
    requires rest == [] || !IsDigit(rest[0])
    ensures ParseSigned(sign + digits + rest) == Some(Signed(sign, digits))
  {
    if sign == "" {
      assert sign + digits + rest == digits + rest;
      ParseUnsignedOf(digits, rest);
    } else {
      assert sign + digits + rest == [sign[0]] + (digits + rest);
      ParseSignOf(sign[0], digits + rest);
      LeadingDigitsOf(digits, rest);
    }
  }

  lemma ParseUnsignedOf(digits: string, rest: string)
    requires digits != [] && forall i :: 0 <= i < |digits| ==> IsDigit(digits[i])
    requires rest == [] || !IsDigit(rest[0])
    ensures ParseSigned(digits + rest) == Some(DigitsValue(digits))
  {
    LeadingDigitsOf(digits, rest);
    UnsignedOfDigit(digits + rest);
  }

  lemma UnsignedOfDigit(t: string)
    requires t != [] && IsDigit(t[0])
    ensures Unsigned(t) == t && t[0] != '-'
  {
  }

  lemma ParseSignOf(c: char, u: string)
    requires IsSign(c)
    requires LeadingDigits(u) != []
    ensures ParseSigned([c] + u) ==
      Some(if c == '-' then -(DigitsValue(LeadingDigits(u)) as int) else DigitsValue(LeadingDigits(u)))
  {
    assert ([c] + u)[1..] == u;
  }

  /** Whitespace and an optional sign followed by no digit: `parseInt` gives
      NaN. Without a sign the text must not start with another sign or with
      more whitespace (those belong to the first two parts). */
  lemma ParseIntNaN(ws: string, sign: string, rest: string)
    requires forall i :: 0 <= i < |ws| ==> IsSpace(ws[i])
    requires sign == "" || sign == "+" || sign == "-"
    requires rest == [] || !IsDigit(rest[0])
    requires sign == "" && rest != [] ==> !IsSpace(rest[0]) && !IsSign(rest[0])
    ensures ParseInt(ws + sign + rest) == None
  {
    assert ws + sign + rest == ws + (sign + rest);
    TrimStartAfter(ws, sign + rest);
    assert (sign + rest)[|sign|..] == rest;
  }

  /** `parseInt(key) || 999`, the number a class key sorts by. */
  function SortNumber(key: string): (n: int)
    ensures n != 0
    ensures key != [] && IsDigit(key[0]) ==>
              n == if DigitsValue(LeadingDigits(key)) == 0 then 999 else DigitsValue(LeadingDigits(key))
    ensures key == [] || !(IsDigit(key[0]) || IsSpace(key[0]) || IsSign(key[0])) ==> n == 999
  {
    assert key == [] || !IsSpace(key[0]) ==> TrimStart(key) == key by {
      if key == [] || !IsSpace(key[0]) {
        TrimStartNoSpace(key);
      }
    }
    match ParseInt(key)
    case None => 999
    case Some(v) => if v == 0 then 999 else v
  }

  /** A key with a number after whitespace and a sign sorts by that number,
      or by 999 when it is 0. */
  lemma SortNumberOf(ws: string, sign: string, digits: string, rest: string)
    requires forall i :: 0 <= i < |ws| ==> IsSpace(ws[i])
    requires sign == "" || sign == "+" || sign == "-"
    requires digits != [] && forall i :: 0 <= i < |digits| ==> IsDigit(digits[i])
    requires rest == [] || !IsDigit(rest[0])
    ensures SortNumber(ws + sign + digits + rest) == if Signed(sign, digits) == 0 then 999 else Signed(sign, digits)
  {
    ParseIntOf(ws, sign, digits, rest);
  }

  /** A key without a number where `parseInt` looks for one sorts as 999. */
  lemma SortNumberNaN(ws: string, sign: string, rest: string)
    requires forall i :: 0 <= i < |ws| ==> IsSpace(ws[i])
    requires sign == "" || sign == "+" || sign == "-"
    requires rest == [] || !IsDigit(rest[0])
    requires sign == "" && rest != [] ==> !IsSpace(rest[0]) && !IsSign(rest[0])
    ensures SortNumber(ws + sign + rest) == 999
  {
    ParseIntNaN(ws, sign, rest);
  }

  /** A key that a JavaScript object lists first: the canonical decimal
      form of an array index. */
  predicate IsArrayIndex(k: string) {
    && k != []
    && (forall i :: 0 <= i < |k| ==> IsDigit(k[i]))
    && (k == "0" || k[0] != '0')
    && DigitsValue(k) < 0xFFFF_FFFF
  }

  predicate IsNamedKey(k: string) {
    !IsArrayIndex(k)
  }

  function IndexValue(k: string): int {
    if forall i :: 0 <= i < |k| ==> IsDigit(k[i]) then DigitsValue(k) else 0
  }

  /** `Object.keys(groups)`: the array-index keys in increasing order, then
      the other keys in insertion order. */
  function ObjectKeys(keys: seq<string>): (r: seq<string>)
    ensures multiset(r) == multiset(keys)
    ensures |Filter(keys, IsArrayIndex)| <= |r|
    ensures forall i :: 0 <= i < |Filter(keys, IsArrayIndex)| ==> IsArrayIndex(r[i])
    ensures SortedBy(r[..|Filter(keys, IsArrayIndex)|], IndexValue)
    ensures r[|Filter(keys, IsArrayIndex)|..] == Filter(keys, IsNamedKey)
  {
    var indexKeys := Filter(keys, IsArrayIndex);
    var named := Filter(keys, IsNamedKey);
    FilterSplit(keys, IsArrayIndex, IsNamedKey);
    var sorted := SortBy(indexKeys, IndexValue);
    assert |sorted| == |indexKeys| by {
      assert |multiset(sorted)| == |multiset(indexKeys)|;
    }
    assert forall i :: 0 <= i < |sorted| ==> IsArrayIndex(sorted[i]) by {
      forall i | 0 <= i < |sorted| ensures IsArrayIndex(sorted[i]) {
        assert sorted[i] in multiset(indexKeys);
        FilterMembers(keys, IsArrayIndex, sorted[i]);
      }
    }
    assert (sorted + named)[..|sorted|] == sorted;
    assert (sorted + named)[|sorted|..] == named;
    sorted + named
  }

  /** `Object.keys(groups).sort((a, b) => (parseInt(a) || 999) - (parseInt(b) || 999))`:
      the keys in non-decreasing order of their leading number, the keys
      without one (or with 0) counting as 999. */
  function ClassKeys(keys: seq<string>): (r: seq<string>)
    ensures SortedBy(r, SortNumber)
    ensures multiset(r) == multiset(keys)
  {
    SortBy(ObjectKeys(keys), SortNumber)
  }

  /** Keys of equal sort number keep the order `Object.keys` gives them. */
  lemma ClassKeysStable(keys: seq<string>, n: int)
    ensures Filter(ClassKeys(keys), KeyIs(SortNumber, n)) == Filter(ObjectKeys(keys), KeyIs(SortNumber, n))
  {
    SortByStable(ObjectKeys(keys), SortNumber, n);
  }

  /** The grouped class list of the "Existing Students" view. */
  method ClassList(allRecords: seq<Record>, classFilter: string)
    returns (classKeys: seq<string>, groups: map<string, seq<Record>>)
    ensures groups.Keys == KeySet(Shown(allRecords, classFilter))
    ensures forall k :: k in groups ==> groups[k] == RecordsOfClass(Shown(allRecords, classFilter), k)
    ensures forall k :: multiset(classKeys)[k] == if k in groups then 1 else 0
    ensures SortedBy(classKeys, SortNumber)
    ensures classKeys == ClassKeys(FirstAppearance(Shown(allRecords, classFilter)))
    ensures GroupTotal(Shown(allRecords, classFilter), classKeys) == |Shown(allRecords, classFilter)|
  {
    var filtered := Shown(allRecords, classFilter);
    var keys;
    keys, groups := GroupByClass(filtered);
    classKeys := ClassKeys(keys);
    forall k ensures multiset(classKeys)[k] == if k in groups then 1 else 0 {
      FirstAppearanceOnce(filtered, k);
    }
    GroupsPartition(filtered, classKeys);
  }

  // ---------------------------------------------------------------------
  // The subject form

  /** The number of subject rows the form shows. */
  const SubjectSlots: nat := 7

  /** An unused row of the form, `{ subjectName: '', mark: '' }`. */
  const EmptySlot: Subject := Subject("", Blank)

  datatype Form = Form(
    name: string,
    fatherName: string,
    registerNumber: string,
    className: string,
    examType: string,
    subjects: seq<Subject>)

  /** The form as `resetForm` leaves it. */
  function BlankForm(): (f: Form)
    ensures |f.subjects| == SubjectSlots && forall i :: 0 <= i < SubjectSlots ==> f.subjects[i] == EmptySlot
  {
    Form("", "", "", "", "Internal / Series Exam", seq(SubjectSlots, _ => EmptySlot))
  }

  /** The subject rows `handleEdit` loads: the first seven subjects of the
      record, then empty rows up to seven. */
  function PadSlots(subjects: seq<Subject>): (slots: seq<Subject>)
    ensures |slots| == SubjectSlots
    ensures forall i :: 0 <= i < SubjectSlots ==> slots[i] == if i < |subjects| then subjects[i] else EmptySlot
  {
    if |subjects| >= SubjectSlots then subjects[..SubjectSlots]
    else subjects + seq(SubjectSlots - |subjects|, _ => EmptySlot)
  }

  /** `handleEdit`: the record's fields loaded into the form. */
  function EditForm(r: Record): Form {
    Form(r.name, r.fatherName, r.registerNumber, r.className, r.examType, PadSlots(r.subjects))
  }

  /** The request body `handleSubmit` sends: the whole form. */
  function Submission(f: Form): MarkRequest {
    MarkRequest(f.name, f.fatherName, f.registerNumber, f.className, f.examType, Some(f.subjects))
  }

  /** The server's subject filter drops exactly the padding rows: what is
      stored from a loaded form is the filter of the first seven subjects. */
  lemma PaddingIsDropped(subjects: seq<Subject>)
    ensures ValidSubjects(PadSlots(subjects)) ==
              ValidSubjects(if |subjects| >= SubjectSlots then subjects[..SubjectSlots] else subjects)
  {
    if |subjects| < SubjectSlots {
      var pad := seq(SubjectSlots - |subjects|, _ => EmptySlot);
      assert PadSlots(subjects) == subjects + pad;
      EmptyRowsDropped(pad);
      FilterAppend(subjects, pad, KeepSubject);
    }
  }

  lemma EmptyRowsDropped(pad: seq<Subject>)
    requires forall i :: 0 <= i < |pad| ==> pad[i] == EmptySlot
    ensures Filter(pad, KeepSubject) == []
  {
    FilterNone(pad, KeepSubject);
  }

  /** Opening a stored record in the edit form and saving it without a change
      rewrites the same record, only its update time moves, provided it has
      at most seven subjects (more are cut off by the form). */
  lemma EditAndSaveUnchanged(records: seq<Record>, k: nat, now: nat)
    requires forall i, j :: 0 <= i < j < |records| ==> records[i].id != records[j].id
    requires k < |records|
    requires |records[k].subjects| <= SubjectSlots
    requires forall i :: 0 <= i < |records[k].subjects| ==>
               KeepSubject(records[k].subjects[i]) && !records[k].subjects[i].mark.NotANumber?
    ensures UpdateOutcome(records, records[k].id, now, Submission(EditForm(records[k])))
              == Updated(records[k].(updatedAt := now))
  {
    LoadedSubjectsSaveBack(records[k].subjects);
    IndexOfDistinctId(records, k);
  }

  /** A stored record with more than seven subjects loses the ones after the
      seventh when it is opened in the edit form and saved without a change. */
  lemma EditAndSaveTruncates(records: seq<Record>, k: nat, now: nat)
    requires forall i, j :: 0 <= i < j < |records| ==> records[i].id != records[j].id
    requires k < |records|
    requires |records[k].subjects| > SubjectSlots
    requires forall i :: 0 <= i < |records[k].subjects| ==>
               KeepSubject(records[k].subjects[i]) && !records[k].subjects[i].mark.NotANumber?
    ensures UpdateOutcome(records, records[k].id, now, Submission(EditForm(records[k])))
              == Updated(records[k].(subjects := records[k].subjects[..SubjectSlots], updatedAt := now))
  {
    var subs := records[k].subjects;
    PaddingIsDropped(subs);
    FilterAll(subs[..SubjectSlots], KeepSubject);
    IndexOfDistinctId(records, k);
  }

  /** Rows loaded into the form come back from the subject filter as they
      were, when they were at most seven stored rows. */
  lemma LoadedSubjectsSaveBack(subs: seq<Subject>)
    requires |subs| <= SubjectSlots
    requires forall i :: 0 <= i < |subs| ==> KeepSubject(subs[i])
    ensures ValidSubjects(PadSlots(subs)) == subs
  {
    PaddingIsDropped(subs);
    assert |subs| >= SubjectSlots ==> subs[..SubjectSlots] == subs;
    FilterAll(subs, KeepSubject);
  }

  /** With distinct ids, looking up the id of a record finds that record. */
  lemma IndexOfDistinctId(records: seq<Record>, k: nat)
    requires forall i, j :: 0 <= i < j < |records| ==> records[i].id != records[j].id
    requires k < |records|
    ensures IndexOfId(records, records[k].id) == Some(k)
  {
  }

  /** One edit of one row of the form. */
  datatype SlotEdit = SetName(name: string) | SetMark(mark: Mark)

  /** `handleSubjectChange(index, field, value)`: a copy of the rows with the
      one field of row `index` replaced. */
  function ChangeSubject(subjects: seq<Subject>, index: nat, edit: SlotEdit): (r: seq<Subject>)
    requires index < |subjects|
    ensures |r| == |subjects|
    ensures forall j :: 0 <= j < |r| && j != index ==> r[j] == subjects[j]
    ensures edit.SetName? ==> r[index] == Subject(edit.name, subjects[index].mark)
    ensures edit.SetMark? ==> r[index] == Subject(subjects[index].subjectName, edit.mark)
  {
    var row := match edit
      case SetName(n) => subjects[index].(subjectName := n)
      case SetMark(m) => subjects[index].(mark := m);
    subjects[index := row]
  }

  /** Edits of different rows do not interfere, and a second edit of the same
      field of a row overrides the first. */
  lemma ChangesCommuteAndOverride(subjects: seq<Subject>, i: nat, j: nat, e: SlotEdit, e': SlotEdit)
    requires i < |subjects| && j < |subjects|
    ensures i != j ==>
      ChangeSubject(ChangeSubject(subjects, i, e), j, e') == ChangeSubject(ChangeSubject(subjects, j, e'), i, e)
    ensures e.SetName? == e'.SetName? ==>
      ChangeSubject(ChangeSubject(subjects, i, e), i, e') == ChangeSubject(subjects, i, e')
  {
  }

  // ---------------------------------------------------------------------
  // The pass/fail badge

  predicate PassMark(m: Mark) {
    ToNumber(m).Finite? && ToNumber(m).value >= 18
  }

  /** `record.subjects.length > 0 && record.subjects.every(sub => Number(sub.mark) >= 18)`:
      a record passes when it has subjects and none of them is graded D. */
  function IsPassed(subjects: seq<Subject>): (passed: bool)
    ensures passed <==> subjects != [] && forall i :: 0 <= i < |subjects| ==> GetGrade(subjects[i].mark) != D
  {
    |subjects| > 0 && forall i :: 0 <= i < |subjects| ==> PassMark(subjects[i].mark)
  }

  /** A passing record earns at least 18 per subject in total. */
  lemma {:induction false} PassedEarnsAtLeast(subjects: seq<Subject>)
    requires IsPassed(subjects)
    ensures TotalEarned(subjects) >= 18 * |subjects|
  {
    if |subjects| > 1 {
      var init := subjects[..|subjects| - 1];
      assert forall i :: 0 <= i < |init| ==> init[i] == subjects[i];
      PassedEarnsAtLeast(init);
    } else {
      assert subjects[..0] == [];
    }
  }

  /** The two records of the examples: marks 10 and 20 fail, 18 and 45 pass. */
  lemma PassExamples()
    ensures !IsPassed([Subject("Math", Number(10)), Subject("Arabic", Number(20))])
    ensures IsPassed([Subject("Math", Number(18)), Subject("Arabic", Number(45))])
    ensures !IsPassed([])
  {
    assert !PassMark([Subject("Math", Number(10)), Subject("Arabic", Number(20))][0].mark);
  }
}
