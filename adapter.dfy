/**
 * The counting and labelling rules of the picker's sectioned list adapter
 * (GroupCreateActivity.ListAdapter) and the label of a chip.
 *
 * Outside search mode the list shows the contact sections (each a list of
 * contact user ids, in the order of the sorted section keys); in search mode
 * (`searching && searchWas`) it shows one section holding the search results,
 * or no section at all when there are none.
 */
module ListAdapterRules {
  import opened Wrappers
  import opened ContactSearch

  /** Whether the list shows search results. */
  predicate SearchMode(searching: bool, searchWas: bool)
  {
    searching && searchWas
  }

  /** Number of search results; `null` counts as none. */
  function ResultCount(searchResult: Option<seq<User>>): nat
  {
    match searchResult
    case None => 0
    case Some(r) => |r|
  }

  /** `getSectionCount`. */
  function SectionCount(searching: bool, searchWas: bool, searchResult: Option<seq<User>>, sections: seq<seq<int>>): (r: nat)
    ensures SearchMode(searching, searchWas) ==> (r == 1 <==> ResultCount(searchResult) > 0)
    ensures SearchMode(searching, searchWas) ==> r <= 1
    ensures !SearchMode(searching, searchWas) ==> r == |sections|
  {
    if SearchMode(searching, searchWas) then
      if searchResult.None? || |searchResult.value| == 0 then 0 else 1
    else |sections|
  }

  /**
   * `getCountForSection`. Outside search mode the section index must name an
   * existing section (the Java list lookup throws otherwise).
   */
  function CountForSection(searching: bool, searchWas: bool, searchResult: Option<seq<User>>, sections: seq<seq<int>>, section: int): (r: nat)
    requires !SearchMode(searching, searchWas) ==> 0 <= section < |sections|
    ensures SearchMode(searching, searchWas) ==> r == ResultCount(searchResult)
    ensures !SearchMode(searching, searchWas) ==> r == |sections[section]|
  {
    if SearchMode(searching, searchWas) then
      if searchResult.None? then 0 else |searchResult.value|
    else |sections[section]|
  }

  /** Rows in the first `k` sections the adapter reports. */
  function RowsBefore(searching: bool, searchWas: bool, searchResult: Option<seq<User>>, sections: seq<seq<int>>, k: nat): nat
    requires k <= SectionCount(searching, searchWas, searchResult, sections)
  {
    if k == 0 then 0
    else
      var before := RowsBefore(searching, searchWas, searchResult, sections, k - 1);
      before + CountForSection(searching, searchWas, searchResult, sections, k - 1)
  }

  /** All contact ids of the sections, section after section. */
  function Flatten(sections: seq<seq<int>>): (all: seq<int>)
    ensures forall i, x :: 0 <= i < |sections| && x in sections[i] ==> x in all
    ensures forall x :: x in all ==> exists i :: 0 <= i < |sections| && x in sections[i]
  {
    if |sections| == 0 then []
    else
      var n := |sections| - 1;
      assert forall i :: 0 <= i < n ==> sections[..n][i] == sections[i];
      Flatten(sections[..n]) + sections[n]
  }

  /** In search mode the list has exactly one row per search result, and none when the result is `null` or empty. */
  lemma SearchRowsAreResults(searching: bool, searchWas: bool, searchResult: Option<seq<User>>, sections: seq<seq<int>>)
    requires SearchMode(searching, searchWas)
    ensures RowsBefore(searching, searchWas, searchResult, sections,
      SectionCount(searching, searchWas, searchResult, sections)) == ResultCount(searchResult)
  {
  }

  /** Outside search mode the list has exactly one row per contact of the sections. */
  lemma {:induction false} ContactRowsAreContacts(searching: bool, searchWas: bool, searchResult: Option<seq<User>>, sections: seq<seq<int>>, k: nat)
    requires !SearchMode(searching, searchWas) && k <= |sections|
    ensures RowsBefore(searching, searchWas, searchResult, sections, k) == |Flatten(sections[..k])|
  {
    if k > 0 {
      ContactRowsAreContacts(searching, searchWas, searchResult, sections, k - 1);
      assert sections[..k][..k - 1] == sections[..k - 1];
    }
  }

  /**
   * Whether a row draws its bottom divider: every row but the last of its
   * section does. For a row inside the section, the divider is shown exactly
   * when another row follows in the same section.
   */
  function ShowsDivider(position: int, size: int): (r: bool)
    ensures 0 <= position < size ==> (r <==> position + 1 < size)
  {
    position != size - 1
  }

  /** Exactly one row of a non-empty section, its last, goes without a divider. */
  lemma OnlyLastRowLacksDivider(size: nat, p: nat, q: nat)
    requires p < size && q < size
    requires !ShowsDivider(p, size) && !ShowsDivider(q, size)
    ensures p == q == size - 1
  {
  }

  /**
   * The name a contact row shows outside search mode: the formatted name,
   * else the formatted phone number when the user has one, else the
   * "hidden name" string. The three formatters are not part of this model and
   * are passed in.
   */
  function DisplayName(u: User, formatName: (string, string) -> string, formatPhone: string -> string,
                       hiddenName: string): (r: string)
    ensures |formatName(u.firstName, u.lastName)| > 0 ==> r == formatName(u.firstName, u.lastName)
    ensures |formatName(u.firstName, u.lastName)| == 0 && u.phone.Some? && |u.phone.value| > 0 ==>
      r == formatPhone("+" + u.phone.value)
    ensures |formatName(u.firstName, u.lastName)| == 0 && !(u.phone.Some? && |u.phone.value| > 0) ==>
      r == hiddenName
  {
    var name := formatName(u.firstName, u.lastName);
    if |name| == 0 then
      if u.phone.Some? && |u.phone.value| != 0 then formatPhone("+" + u.phone.value) else hiddenName
    else name
  }

  /** The text drawn on a user's chip: the formatted name, else the formatted phone, then ", ". */
  function ChipLabel(u: User, formatName: (string, string) -> string, formatPhone: string -> string): (r: string)
    ensures |r| >= 2 && r[|r| - 2..] == ", "
  {
    var name := formatName(u.firstName, u.lastName);
    (if |name| == 0 && u.phone.Some? && |u.phone.value| != 0 then formatPhone("+" + u.phone.value) else name) + ", "
  }

  /** As long as the formatters and the fallback string are not empty, no row is ever left without a name. */
  lemma DisplayNameNeverEmpty(u: User, formatName: (string, string) -> string, formatPhone: string -> string,
                              hiddenName: string)
    requires |hiddenName| > 0
    requires forall s :: |formatPhone(s)| > 0
    ensures |DisplayName(u, formatName, formatPhone, hiddenName)| > 0
  {
  }

  /**
   * A chip reads as the row's name followed by ", " when the user has a name
   * or a phone number; a user with neither gets the chip ", " while the row
   * shows the hidden-name string.
   */
  lemma ChipLabelMatchesRow(u: User, formatName: (string, string) -> string, formatPhone: string -> string,
                            hiddenName: string)
    ensures |formatName(u.firstName, u.lastName)| > 0 || (u.phone.Some? && |u.phone.value| > 0) ==>
      ChipLabel(u, formatName, formatPhone) == DisplayName(u, formatName, formatPhone, hiddenName) + ", "
    ensures |formatName(u.firstName, u.lastName)| == 0 && !(u.phone.Some? && |u.phone.value| > 0) ==>
      ChipLabel(u, formatName, formatPhone) == ", " && DisplayName(u, formatName, formatPhone, hiddenName) == hiddenName
  {
  }
}
