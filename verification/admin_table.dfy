/**
 * The admin dashboard's member table in the browser: the search box that
 * narrows the rows the admin listing returned, and the badge variant each
 * row's status column is drawn with.
 */
module AdminTable {
  import opened Wrappers
  import opened Text
  import opened Folds
  import opened Schema
  import opened Storage
  import opened AdminRoutes

  /** `field?.toLowerCase().includes(query.toLowerCase())`: a missing field
      never matches. */
  predicate FieldMatches(field: Option<string>, query: string) {
    field.Some? && Contains(Lower(field.value), Lower(query))
  }

  /** A row matches on its username, e-mail or full name; the phone is not searched. */
  predicate RowMatches(row: AdminUserRow, query: string) {
    FieldMatches(Some(row.username), query) || FieldMatches(row.email, query) || FieldMatches(row.fullName, query)
  }

  function Matches(query: string): AdminUserRow -> bool {
    (row: AdminUserRow) => RowMatches(row, query)
  }

  /** `filteredUsers`: the listing's rows the search query matches, in the
      listing's order. */
  function SearchRows(rows: seq<AdminUserRow>, query: string): (r: seq<AdminUserRow>)
    ensures IsSubsequence(r, rows)
    ensures forall i :: 0 <= i < |r| ==> r[i] in rows && RowMatches(r[i], query)
    ensures forall i :: 0 <= i < |rows| && RowMatches(rows[i], query) ==> rows[i] in r
  {
    Filter(rows, Matches(query))
  }

  /** The empty search box shows every row: every username contains "". */
  lemma EmptySearchShowsAll(rows: seq<AdminUserRow>)
    ensures SearchRows(rows, "") == rows
  {
    forall i | 0 <= i < |rows| ensures Matches("")(rows[i]) {
      ContainsEmpty(Lower(rows[i].username));
    }
    FilterAll(rows, Matches(""));
  }

  /** The search ignores the case of the query. */
  lemma SearchIgnoresCase(rows: seq<AdminUserRow>, query: string)
    ensures SearchRows(rows, Upper(query)) == SearchRows(rows, query)
    ensures SearchRows(rows, Lower(query)) == SearchRows(rows, query)
  {
    LowerOfUpper(query);
    LowerIdempotent(query);
    FilterCongruent(rows, Matches(Upper(query)), Matches(query));
    FilterCongruent(rows, Matches(Lower(query)), Matches(query));
  }

  lemma LowerIdempotent(q: string)
    ensures Lower(Lower(q)) == Lower(q)
  {
  }

  /** Typing more narrows the table: a row shown for a query that contains
      `shorter` is shown for `shorter` too. */
  lemma LongerQueryNarrows(rows: seq<AdminUserRow>, shorter: string, longer: string)
    requires Contains(longer, shorter)
    ensures forall i :: 0 <= i < |SearchRows(rows, longer)| ==> SearchRows(rows, longer)[i] in SearchRows(rows, shorter)
  {
    ContainsLower(longer, shorter);
    var r := SearchRows(rows, longer);
    forall i | 0 <= i < |r| ensures r[i] in SearchRows(rows, shorter) {
      FieldNarrows(Some(r[i].username), shorter, longer);
      FieldNarrows(r[i].email, shorter, longer);
      FieldNarrows(r[i].fullName, shorter, longer);
    }
  }

  lemma FieldNarrows(field: Option<string>, shorter: string, longer: string)
    requires Contains(Lower(longer), Lower(shorter))
    ensures FieldMatches(field, longer) ==> FieldMatches(field, shorter)
  {
    if FieldMatches(field, longer) {
      ContainsTransitive(Lower(field.value), Lower(longer), Lower(shorter));
    }
  }

  /** `getStatusVariant`: the badge variant of a status text. */
  function StatusVariant(status: string): (r: string)
    ensures r in {"default", "secondary", "destructive"}
    ensures r == "default" <==> status == "active"
    ensures r == "destructive" <==> status == "expired"
  {
    if status == "active" then "default"
    else if status == "pending" then "secondary"
    else if status == "expired" then "destructive"
    else "secondary"
  }

  /** In the listing, a member's status is drawn as "default" exactly when
      their membership is active; a member without one is drawn "secondary". */
  lemma ListedVariant(s: Store, uid: Id)
    requires MembershipsValid(s)
    ensures StatusVariant(StatusLabel(s, uid)) == "default" <==>
      GetMembership(s, uid).Some? && GetMembership(s, uid).value.status == Active
    ensures GetMembership(s, uid).None? ==> StatusVariant(StatusLabel(s, uid)) == "secondary"
  {
    var m := GetMembership(s, uid);
    if m.Some? && m.value.status == Active {
      assert StatusName(Active) == "active";
    }
    if m.Some? && StatusName(m.value.status) == "active" {
      var k :| 0 <= k < |s.memberships| && s.memberships[k] == m.value;
      StatusNameInjective(m.value.status, Active);
    }
  }
}
