/**
 * The member directory of MembersTable.jsx: the list loaded from GET /members
 * and sorted by welfare number, the search filter over it, the highlighted
 * first match, the detail-dialog selection, the confirmed delete, and the
 * date format used in the table's date columns.
 */
module Directory {

  import opened Options
  import opened Text
  import opened Seqs
  import opened Members

  // ===========================================================================
  // Loading: `response.data.sort((a, b) => a.welfareNo - b.welfareNo)`
  // ===========================================================================

  function Key(m: NumberedMember): int {
    m.welfareNo.value
  }

  predicate SortedByWelfareNo(s: seq<NumberedMember>) {
    forall i, j :: 0 <= i < j < |s| ==> Key(s[i]) <= Key(s[j])
  }

  function HasWelfareNo(k: int): NumberedMember -> bool {
    (m: NumberedMember) => Key(m) == k
  }

  /** The members of `s` whose welfare number is `k`, in their order in `s`. */
  function KeyClass(s: seq<NumberedMember>, k: int): seq<NumberedMember> {
    Keep(s, HasWelfareNo(k))
  }

  /** `m` placed before the first member of `s` whose welfare number is not smaller. */
  function InsertByWelfareNo(m: NumberedMember, s: seq<NumberedMember>): (r: seq<NumberedMember>)
    ensures multiset(r) == multiset(s) + multiset{m}
    decreases |s|
  {
    if s == [] || Key(m) <= Key(s[0]) then [m] + s
    else
      assert s == [s[0]] + s[1..];
      [s[0]] + InsertByWelfareNo(m, s[1..])
  }

  lemma {:induction false} InsertKeepsSorted(m: NumberedMember, s: seq<NumberedMember>)
    requires SortedByWelfareNo(s)
    ensures SortedByWelfareNo(InsertByWelfareNo(m, s))
    decreases |s|
  {
    if s != [] && Key(m) > Key(s[0]) {
      var t := InsertByWelfareNo(m, s[1..]);
      InsertKeepsSorted(m, s[1..]);
      forall j | 0 <= j < |t| ensures Key(s[0]) <= Key(t[j]) {
        assert t[j] in multiset(t);
        assert t[j] == m || t[j] in multiset(s[1..]);
        if t[j] != m {
          var i :| 0 <= i < |s[1..]| && s[1..][i] == t[j];
          assert s[i + 1] == t[j];
        }
      }
    }
  }

  /**
   * The list `fetchMembers` stores: the response sorted ascending by welfare
   * number, members with equal numbers left in response order (the sort of
   * ECMA-262 is stable since its 2019 edition).
   */
  function SortByWelfareNo(s: seq<NumberedMember>): (r: seq<NumberedMember>)
    ensures multiset(r) == multiset(s)
    ensures SortedByWelfareNo(r)
    decreases |s|
  {
    if s == [] then []
    else
      assert s == [s[0]] + s[1..];
      var t := SortByWelfareNo(s[1..]);
      InsertKeepsSorted(s[0], t);
      InsertByWelfareNo(s[0], t)
  }

  /** Inserting `m` adds it to the members of its own welfare number, ahead of them. */
  lemma {:induction false} InsertKeyClass(m: NumberedMember, s: seq<NumberedMember>, k: int)
    ensures KeyClass(InsertByWelfareNo(m, s), k) == (if Key(m) == k then [m] else []) + KeyClass(s, k)
    decreases |s|
  {
    if s == [] || Key(m) <= Key(s[0]) {
      KeepCons(m, s, HasWelfareNo(k));
    } else {
      var t := InsertByWelfareNo(m, s[1..]);
      var x := KeyClass(s[1..], k);
      var hm: seq<NumberedMember> := if Key(m) == k then [m] else [];
      var h0: seq<NumberedMember> := if Key(s[0]) == k then [s[0]] else [];
      assert s == [s[0]] + s[1..];
      assert InsertByWelfareNo(m, s) == [s[0]] + t;
      InsertKeyClass(m, s[1..], k);
      KeepCons(s[0], t, HasWelfareNo(k));
      KeepCons(s[0], s[1..], HasWelfareNo(k));
      // `s[0]` sorts before `m`, so at most one of them has welfare number `k`.
      SwapWhenOneEmpty(h0, hm, x);
    }
  }

  lemma SwapWhenOneEmpty<T>(a: seq<T>, b: seq<T>, x: seq<T>)
    requires a == [] || b == []
    ensures a + (b + x) == b + (a + x)
  {
    if a == [] {
      assert a + (b + x) == b + x && a + x == x;
    } else {
      assert b + (a + x) == a + x && b + x == x;
    }
  }

  /** Sorting keeps, for every welfare number, the members carrying it in response order. */
  lemma {:induction false} SortKeepsKeyClasses(s: seq<NumberedMember>, k: int)
    ensures KeyClass(SortByWelfareNo(s), k) == KeyClass(s, k)
    decreases |s|
  {
    if s != [] {
      assert s == [s[0]] + s[1..];
      SortKeepsKeyClasses(s[1..], k);
      InsertKeyClass(s[0], SortByWelfareNo(s[1..]), k);
      KeepCons(s[0], s[1..], HasWelfareNo(k));
    }
  }

  /** A sorted list whose key classes are `a`'s contains `a[0]` no earlier than where its key starts. */
  lemma HeadKeyBound(a: seq<NumberedMember>, b: seq<NumberedMember>)
    requires a != [] && b != [] && SortedByWelfareNo(b)
    requires KeyClass(a, Key(a[0])) == KeyClass(b, Key(a[0]))
    ensures Key(b[0]) <= Key(a[0])
  {
    assert a[0] in KeyClass(a, Key(a[0]));
    var j :| 0 <= j < |b| && b[j] == a[0];
  }

  /** Sorted lists with the same key classes start with the same member. */
  lemma SameHead(a: seq<NumberedMember>, b: seq<NumberedMember>)
    requires a != [] && b != [] && SortedByWelfareNo(a) && SortedByWelfareNo(b)
    requires forall k :: KeyClass(a, k) == KeyClass(b, k)
    ensures a[0] == b[0]
  {
    var k := Key(a[0]);
    HeadKeyBound(a, b);
    assert KeyClass(b, Key(b[0])) == KeyClass(a, Key(b[0]));
    HeadKeyBound(b, a);
    KeepCons(a[0], a[1..], HasWelfareNo(k));
    KeepCons(b[0], b[1..], HasWelfareNo(k));
    assert [a[0]] + a[1..] == a && [b[0]] + b[1..] == b;
    assert KeyClass(a, k)[0] == a[0] && KeyClass(b, k)[0] == b[0];
  }

  /** Removing the same first member from both lists keeps their key classes equal. */
  lemma DropSameHead(a: seq<NumberedMember>, b: seq<NumberedMember>, k: int)
    requires a != [] && b != [] && a[0] == b[0]
    requires KeyClass(a, k) == KeyClass(b, k)
    ensures KeyClass(a[1..], k) == KeyClass(b[1..], k)
  {
    KeepCons(a[0], a[1..], HasWelfareNo(k));
    KeepCons(b[0], b[1..], HasWelfareNo(k));
    assert [a[0]] + a[1..] == a && [b[0]] + b[1..] == b;
    var p := HasWelfareNo(k);
    assert KeyClass(a, k) == (if p(a[0]) then [a[0]] else []) + KeyClass(a[1..], k);
    assert KeyClass(b, k) == (if p(a[0]) then [a[0]] else []) + KeyClass(b[1..], k);
    if p(a[0]) {
      assert KeyClass(a[1..], k) == KeyClass(a, k)[1..];
      assert KeyClass(b[1..], k) == KeyClass(b, k)[1..];
    } else {
      assert KeyClass(a, k) == KeyClass(a[1..], k);
      assert KeyClass(b, k) == KeyClass(b[1..], k);
    }
  }

  /** A list with a member has a non-empty key class, so key classes equal to those of an empty list force emptiness. */
  lemma EmptyTogether(a: seq<NumberedMember>, b: seq<NumberedMember>)
    requires forall k :: KeyClass(a, k) == KeyClass(b, k)
    ensures a != [] ==> b != []
  {
    if a != [] {
      assert a[0] in KeyClass(a, Key(a[0]));
      assert KeyClass(b, Key(a[0])) != [];
    }
  }

  /**
   * Two lists sorted by welfare number that agree on every key class are
   * equal: sortedness and stability leave no choice.
   */
  lemma {:induction false} StableOrderIsUnique(a: seq<NumberedMember>, b: seq<NumberedMember>)
    requires SortedByWelfareNo(a) && SortedByWelfareNo(b)
    requires forall k :: KeyClass(a, k) == KeyClass(b, k)
    ensures a == b
    decreases |a|
  {
    EmptyTogether(a, b);
    EmptyTogether(b, a);
    if a != [] {
      SameHead(a, b);
      forall k ensures KeyClass(a[1..], k) == KeyClass(b[1..], k) {
        DropSameHead(a, b, k);
      }
      StableOrderIsUnique(a[1..], b[1..]);
      assert a == [a[0]] + a[1..] && b == [b[0]] + b[1..];
    }
  }

  /**
   * Any stable ascending sort of the response gives exactly `SortByWelfareNo`
   * of it, so the list stored after a load does not depend on how the engine
   * sorts.
   */
  lemma StableSortIsDetermined(data: seq<NumberedMember>, r: seq<NumberedMember>)
    requires SortedByWelfareNo(r)
    requires forall k :: KeyClass(r, k) == KeyClass(data, k)
    ensures r == SortByWelfareNo(data)
  {
    forall k ensures KeyClass(r, k) == KeyClass(SortByWelfareNo(data), k) {
      SortKeepsKeyClasses(data, k);
    }
    StableOrderIsUnique(r, SortByWelfareNo(data));
  }

  /** A response already in welfare-number order is stored as it came. */
  lemma {:induction false} SortOfSortedIsIdentity(s: seq<NumberedMember>)
    requires SortedByWelfareNo(s)
    ensures SortByWelfareNo(s) == s
    decreases |s|
  {
    if s != [] {
      SortOfSortedIsIdentity(s[1..]);
      assert s == [s[0]] + s[1..];
    }
  }

  /**
   * Sorting the stored list again changes nothing, so a response that is
   * already in welfare-number order is stored as it came.
   */
  lemma ReloadIsIdempotent(s: seq<NumberedMember>)
    ensures SortByWelfareNo(SortByWelfareNo(s)) == SortByWelfareNo(s)
  {
    SortOfSortedIsIdentity(SortByWelfareNo(s));
  }

  /** Welfare numbers 5 then 2 are stored as 2 then 5. */
  lemma LoadExample()
    ensures var first := Member("1", None, Some(5), None);
            var second := Member("2", None, Some(2), None);
            SortByWelfareNo([first, second]) == [second, first]
  {
  }

  // ===========================================================================
  // Searching: `filteredMembers`
  // ===========================================================================

  /** The text `member.welfareNo?.toString()` gives, or absent. */
  function WelfareText(m: Member): Option<string> {
    match m.welfareNo
    case None => None
    case Some(n) => Some(DecimalText(n))
  }

  /** `field?.toString().toLowerCase().includes(term.toLowerCase())`; an absent field gives `undefined`, which is falsy. */
  predicate FieldMatches(field: Option<string>, term: string) {
    field.Some? && Includes(Lower(field.value), Lower(term))
  }

  /** The filter's test: EPF number, welfare number or name contains the term, ignoring case. */
  predicate MatchesSearch(m: Member, term: string) {
    FieldMatches(m.epf, term) || FieldMatches(WelfareText(m), term) || FieldMatches(m.name, term)
  }

  function SearchFor(term: string): Member -> bool {
    (m: Member) => MatchesSearch(m, term)
  }

  /** The rows the table shows: `members.filter(...)` with the test above. */
  function Filtered(ms: seq<Member>, term: string): seq<Member> {
    Keep(ms, SearchFor(term))
  }

  /** At least one of the three searched fields is present. */
  predicate HasSearchField(m: Member) {
    m.epf.Some? || m.welfareNo.Some? || m.name.Some?
  }

  /** A present field matches exactly when the lower-cased term occurs somewhere in its lower-cased text. */
  lemma FieldMatchesIffOccurs(field: Option<string>, term: string)
    ensures FieldMatches(field, term) <==>
            field.Some? && exists i :: OccursAt(Lower(field.value), Lower(term), i)
  {
    if field.Some? {
      assert FieldMatches(field, term) <==> Includes(Lower(field.value), Lower(term));
      IncludesIffOccurs(Lower(field.value), Lower(term));
    }
  }

  /** The welfare number is searched through its decimal digits, which case folding leaves alone. */
  lemma WelfareNoMatchesDigits(m: Member, term: string)
    requires m.welfareNo.Some?
    ensures FieldMatches(WelfareText(m), term) <==> Includes(DecimalText(m.welfareNo.value), Lower(term))
  {
    LowerOfDecimalText(m.welfareNo.value);
  }

  /**
   * The view is the subsequence of `ms` at the ascending indices of the
   * members that match, and only those.
   */
  lemma FilteredIsOrderedSelection(ms: seq<Member>, term: string)
    ensures var view, ix := Filtered(ms, term), Positions(ms, SearchFor(term));
            && |ix| == |view|
            && (forall k :: 0 <= k < |ix| ==> ix[k] < |ms| && view[k] == ms[ix[k]])
            && (forall k, l :: 0 <= k < l < |ix| ==> ix[k] < ix[l])
            && (forall i :: 0 <= i < |ms| ==> (i in ix <==> MatchesSearch(ms[i], term)))
  {
    KeepSelectsInOrder(ms, SearchFor(term));
  }

  /** The view is empty exactly when no member matches. */
  lemma FilteredEmptyIffNoMatch(ms: seq<Member>, term: string)
    ensures Filtered(ms, term) == [] <==> forall i :: 0 <= i < |ms| ==> !MatchesSearch(ms[i], term)
  {
    var view := Filtered(ms, term);
    if view != [] {
      assert view[0] in view;
      var i :| 0 <= i < |ms| && ms[i] == view[0];
    }
    if exists i :: 0 <= i < |ms| && MatchesSearch(ms[i], term) {
      var i :| 0 <= i < |ms| && MatchesSearch(ms[i], term);
      assert ms[i] in view;
    }
  }

  /**
   * With an empty search the view is the members having an EPF number, a
   * welfare number or a name; a record with none of the three is not shown.
   */
  lemma EmptySearchKeepsFielded(ms: seq<Member>)
    ensures Filtered(ms, "") == Keep(ms, HasSearchField)
  {
    forall i | 0 <= i < |ms| ensures SearchFor("")(ms[i]) == HasSearchField(ms[i]) {
      assert Lower("") == "";
    }
    KeepAgreeing(ms, SearchFor(""), HasSearchField);
  }

  /** Every loaded member has a welfare number, so the empty search shows the whole directory. */
  lemma EmptySearchShowsDirectory(ms: seq<NumberedMember>)
    ensures Filtered(ms, "") == ms
  {
    EmptySearchKeepsFielded(ms);
    KeepEverything<Member>(ms, HasSearchField);
  }

  /** Searching "jo" among John and Mary leaves John alone. */
  lemma SearchExample()
    ensures var john := Member("a", Some("1001"), Some(1), Some("John"));
            var mary := Member("b", Some("1002"), Some(2), Some("Mary"));
            Filtered([john, mary], "jo") == [john]
  {
    var john := Member("a", Some("1001"), Some(1), Some("John"));
    var mary := Member("b", Some("1002"), Some(2), Some("Mary"));
    JohnMatches(john);
    MaryDoesNotMatch(mary);
    KeepCons(john, [mary], SearchFor("jo"));
    KeepCons(mary, [], SearchFor("jo"));
  }

  lemma JohnMatches(john: Member)
    requires john.name == Some("John")
    ensures MatchesSearch(john, "jo")
  {
    assert Lower("jo") == "jo";
    assert Lower("John") == "john";
    assert Includes("john", "jo");
  }

  lemma MaryDoesNotMatch(mary: Member)
    requires mary == Member("b", Some("1002"), Some(2), Some("Mary"))
    ensures !MatchesSearch(mary, "jo")
  {
    assert Lower("jo") == "jo";
    LowerOfCaseless("1002");
    IncludesNeedsFirstChar("1002", "jo");
    LowerOfDecimalText(2);
    assert DecimalText(2) == "2";
    IncludesNeedsFirstChar("2", "jo");
    assert Lower("Mary") == "mary";
    IncludesNeedsFirstChar("mary", "jo");
  }

  // ===========================================================================
  // The highlight effect
  // ===========================================================================

  /**
   * `highlightedMemberId` after the effect runs: the `_id` of the first row
   * of the view when that row's element is mounted (`memberRefs.current[id]`
   * set), and null otherwise.
   */
  function HighlightFor(view: seq<Member>, mounted: set<string>): Option<string> {
    if |view| > 0 && view[0].id in mounted then Some(view[0].id) else None
  }

  /** `ms[i]` matches and no member before it does. */
  predicate IsFirstMatch(ms: seq<Member>, term: string, i: int) {
    0 <= i < |ms| && MatchesSearch(ms[i], term) && forall j :: 0 <= j < i ==> !MatchesSearch(ms[j], term)
  }

  /**
   * The highlight is the first member of the directory that matches the
   * search, when its row is mounted; with no match there is no highlight.
   */
  lemma HighlightIsFirstMatch(ms: seq<Member>, term: string, mounted: set<string>)
    ensures (forall i :: 0 <= i < |ms| ==> !MatchesSearch(ms[i], term)) ==>
              HighlightFor(Filtered(ms, term), mounted) == None
    ensures forall i :: IsFirstMatch(ms, term, i) ==>
              HighlightFor(Filtered(ms, term), mounted) == if ms[i].id in mounted then Some(ms[i].id) else None
  {
    FilteredEmptyIffNoMatch(ms, term);
    FilteredIsOrderedSelection(ms, term);
    var view, ix := Filtered(ms, term), Positions(ms, SearchFor(term));
    forall i | IsFirstMatch(ms, term, i) ensures |view| > 0 && view[0] == ms[i] {
      assert i in ix;
      var k :| 0 <= k < |ix| && ix[k] == i;
      assert ix[0] <= i;
      assert MatchesSearch(ms[ix[0]], term);
    }
  }

  // ===========================================================================
  // Dates in the table: `formatDate`
  // ===========================================================================

  /** What `new Date(dateString)` yields when it is valid: `getFullYear()`, `getMonth()` (from 0) and `getDate()`. */
  datatype CalendarDate = CalendarDate(year: int, month0: int, day: int)

  /** `formatDate`: `-` for an invalid date, otherwise month (from 1), day and year joined by `/`. */
  function FormatDate(date: Option<CalendarDate>): string {
    match date
    case None => "-"
    case Some(d) => DecimalText(d.month0 + 1) + "/" + DecimalText(d.day) + "/" + DecimalText(d.year)
  }

  /** Reads `M/D/YYYY` back; the inverse the format is checked against. */
  function ParseDate(s: string): Option<CalendarDate> {
    var f := Split(s, '/');
    if |f| != 3 then None
    else
      match (ParseInt(f[0]), ParseInt(f[1]), ParseInt(f[2]))
      case (Some(m), Some(d), Some(y)) => Some(CalendarDate(y, m - 1, d))
      case _ => None
  }

  /** A formatted valid date reads back as the same calendar date, so no two dates share a display. */
  lemma FormatDateRoundTrip(d: CalendarDate)
    ensures ParseDate(FormatDate(Some(d))) == Some(d)
  {
    var m, dd, y := DecimalText(d.month0 + 1), DecimalText(d.day), DecimalText(d.year);
    assert '/' !in m && '/' !in dd && '/' !in y;
    assert FormatDate(Some(d)) == m + ['/'] + (dd + ['/'] + y);
    SplitAfterField(m, '/', dd + ['/'] + y);
    SplitAfterField(dd, '/', y);
    SplitWithoutSeparator(y, '/');
    ParseDecimalText(d.month0 + 1);
    ParseDecimalText(d.day);
    ParseDecimalText(d.year);
  }

  /** The placeholder `-` is shown exactly for invalid dates. */
  lemma FormatDateDashIffInvalid(date: Option<CalendarDate>)
    ensures FormatDate(date) == "-" <==> date.None?
  {
    if date.Some? {
      var d := date.value;
      assert |FormatDate(date)| >= 5;
    }
  }

  /** A member registered on 5 March 2024 shows as 3/5/2024. */
  lemma FormatDateExample()
    ensures FormatDate(Some(CalendarDate(2024, 2, 5))) == "3/5/2024"
  {
    assert NatText(2024) == "2024" by {
      assert NatText(2) == "2";
      assert NatText(20) == "20";
      assert NatText(202) == "202";
    }
  }

  // ===========================================================================
  // Deleting: `members.filter((member) => member._id !== memberId)`
  // ===========================================================================

  const DeletedAlert := "Member deleted successfully."
  const DeleteFailedAlert := "Failed to delete member!!!"

  function OtherThan(id: string): NumberedMember -> bool {
    (m: NumberedMember) => m.id != id
  }

  /** The list without every member whose `_id` is `id`. */
  function Without(ms: seq<NumberedMember>, id: string): seq<NumberedMember> {
    Keep(ms, OtherThan(id))
  }

  /** The list `handleDelete` leaves: changed only after a confirmation and a resolved request. */
  function AfterDelete(ms: seq<NumberedMember>, id: string, confirmed: bool, outcome: Outcome): seq<NumberedMember> {
    if confirmed && outcome == Succeeded then Without(ms, id) else ms
  }

  predicate UniqueIds(ms: seq<Member>) {
    forall i, j :: 0 <= i < j < |ms| ==> ms[i].id != ms[j].id
  }

  /**
   * A successful delete keeps every member whose `_id` differs from `id`,
   * and only those, in their order.
   */
  lemma DeleteKeepsOthersInOrder(ms: seq<NumberedMember>, id: string)
    ensures var rest, ix := Without(ms, id), Positions(ms, OtherThan(id));
            && |ix| == |rest|
            && (forall k :: 0 <= k < |ix| ==> ix[k] < |ms| && rest[k] == ms[ix[k]])
            && (forall k, l :: 0 <= k < l < |ix| ==> ix[k] < ix[l])
            && (forall i :: 0 <= i < |ms| ==> (i in ix <==> ms[i].id != id))
  {
    KeepSelectsInOrder(ms, OtherThan(id));
  }

  /** Deleting keeps the directory sorted by welfare number. */
  lemma DeleteKeepsSorted(ms: seq<NumberedMember>, id: string)
    requires SortedByWelfareNo(ms)
    ensures SortedByWelfareNo(Without(ms, id))
  {
    DeleteKeepsOthersInOrder(ms, id);
    var rest, ix := Without(ms, id), Positions(ms, OtherThan(id));
    forall k, l | 0 <= k < l < |rest| ensures Key(rest[k]) <= Key(rest[l]) {
      assert ix[k] < ix[l];
    }
  }

  /** With unique `_id`s, deleting a listed member shortens the list by exactly one. */
  lemma DeleteOfListedShrinksByOne(ms: seq<NumberedMember>, id: string, i: nat)
    requires UniqueIds(ms) && i < |ms| && ms[i].id == id
    ensures |Without(ms, id)| == |ms| - 1
    ensures forall m :: m in Without(ms, id) ==> m.id != id
  {
    KeepDropsOne(ms, OtherThan(id), i);
  }

  /** Without a confirmation, or when the request rejects, the list is left as it was. */
  lemma DeleteUnconfirmedOrFailedChangesNothing(ms: seq<NumberedMember>, id: string, confirmed: bool, outcome: Outcome)
    requires !confirmed || outcome == Failed
    ensures AfterDelete(ms, id, confirmed, outcome) == ms
  {
  }

  /**
   * The outcome `handleDelete` sees as the file is written: `axios` is used
   * but never imported in MembersTable.jsx (only `API` is), so evaluating
   * `axios.delete(...)` throws inside the `try` before any request leaves,
   * whatever the server would have answered.
   */
  function DeleteOutcomeAsWritten(server: Outcome): Outcome {
    Failed
  }

  /** As written, a confirmed delete of a listed member never removes it, even when the server would accept. */
  lemma DeleteAsWrittenNeverRemoves(ms: seq<NumberedMember>, id: string, i: nat, server: Outcome)
    requires i < |ms| && ms[i].id == id
    ensures ms[i] in AfterDelete(ms, id, true, DeleteOutcomeAsWritten(server))
    ensures server == Succeeded ==> ms[i] !in AfterDelete(ms, id, true, server)
  {
  }

  // ===========================================================================
  // The component's state
  // ===========================================================================

  /** The state of the MembersTable component and its handlers. */
  class MembersTable {
    var members: seq<NumberedMember>
    var searchTerm: string
    var highlightedMemberId: Option<string>
    var selectedMember: Option<Member>

    /** The directory is kept in welfare-number order. */
    ghost predicate Valid()
      reads this
    {
      SortedByWelfareNo(members)
    }

    constructor ()
      ensures Valid()
      ensures members == [] && searchTerm == "" && highlightedMemberId == None && selectedMember == None
    {
      members := [];
      searchTerm := "";
      highlightedMemberId := None;
      selectedMember := None;
    }

    /** The rows rendered for the current list and search. */
    function FilteredMembers(): seq<Member>
      reads this
    {
      Filtered(members, searchTerm)
    }

    /**
     * `fetchMembers`: on a response, store it sorted ascending and stably by
     * welfare number; on a rejection (only logged), keep the list.
     */
    method FetchMembers(response: Response<seq<NumberedMember>>)
      requires Valid()
      modifies this`members
      ensures Valid()
      ensures response.Received? ==>
                && members == SortByWelfareNo(response.data)
                && multiset(members) == multiset(response.data)
                && forall k :: KeyClass(members, k) == KeyClass(response.data, k)
      ensures response.Rejected? ==> members == old(members)
    {
      match response
      case Received(data) =>
        forall k ensures KeyClass(SortByWelfareNo(data), k) == KeyClass(data, k) {
          SortKeepsKeyClasses(data, k);
        }
        members := SortByWelfareNo(data);
      case Rejected =>
    }

    /** `handleSearchChange`: the typed text becomes the search term. */
    method HandleSearchChange(value: string)
      modifies this`searchTerm
      ensures searchTerm == value
    {
      searchTerm := value;
    }

    /** The highlight effect, run after the rows in `mounted` are rendered. */
    method RefreshHighlight(mounted: set<string>)
      modifies this`highlightedMemberId
      ensures highlightedMemberId == HighlightFor(FilteredMembers(), mounted)
      ensures highlightedMemberId.Some? ==> highlightedMemberId.value in mounted
    {
      var view := FilteredMembers();
      if |view| > 0 && view[0].id in mounted {
        highlightedMemberId := Some(view[0].id);
      } else {
        highlightedMemberId := None;
      }
    }

    /** `handleDialogOpen`: the detail dialog shows `member`. */
    method HandleDialogOpen(member: Member)
      modifies this`selectedMember
      ensures selectedMember == Some(member)
    {
      selectedMember := Some(member);
    }

    /** `handleDialogClose`: no member is selected. */
    method HandleDialogClose()
      modifies this`selectedMember
      ensures selectedMember == None
    {
      selectedMember := None;
    }

    /**
     * `handleDelete`: ask, then delete on the server, then drop every member
     * with that `_id`. `confirmed` is the answer to `window.confirm`;
     * `outcome` is how the DELETE request ends, taken here from the server
     * (see `DeleteOutcomeAsWritten` for what the file as written passes).
     * Returns the text of the `alert`, if one is shown.
     */
    method HandleDelete(memberId: string, confirmed: bool, outcome: Outcome) returns (alert: Option<string>)
      requires Valid()
      modifies this`members
      ensures Valid()
      ensures members == AfterDelete(old(members), memberId, confirmed, outcome)
      ensures alert == if !confirmed then None
                       else if outcome == Succeeded then Some(DeletedAlert)
                       else Some(DeleteFailedAlert)
    {
      alert := None;
      if confirmed {
        if outcome == Succeeded {
          DeleteKeepsSorted(members, memberId);
          members := Without(members, memberId);
          alert := Some(DeletedAlert);
        } else {
          alert := Some(DeleteFailedAlert);
        }
      }
    }
  }
}
