/** The `group` table: its columns, defaults and validators. */
module GroupModel {
  import opened Common

  /** One row; the id is the row's position in the table plus one. `image` is a nullable path. */
  datatype Group = Group(name: string, image: Option<string>, groupStrength: int, createdBy: UserId)

  /** `name` is a STRING(64). */
  const NameMaxLength: nat := 64
  const DefaultGroupStrength: int := 1
  const PositiveMessage := "Value should be a positive number"

  /** Sequelize's default message when `notEmpty` refuses the name. */
  const NotEmptyMessage := "Validation notEmpty on name failed"

  /** A character of the class `[\s\t\r\n]`: JavaScript's whitespace and line terminators. */
  predicate IsSpace(c: char) {
    || c == ' ' || c == '\t' || c == '\n' || c == '\r' || c == '\U{B}' || c == '\U{C}'
    || c == '\U{A0}' || c == '\U{1680}' || '\U{2000}' <= c <= '\U{200A}' || c == '\U{2028}'
    || c == '\U{2029}' || c == '\U{202F}' || c == '\U{205F}' || c == '\U{3000}' || c == '\U{FEFF}'
  }

  /** Whether `s` matches `/^[\s\t\r\n]*$/`. */
  function AllSpace(s: string): (r: bool)
    ensures r <==> forall i :: 0 <= i < |s| ==> IsSpace(s[i])
  {
    if s == [] then true
    else
      assert forall i :: 1 <= i < |s| ==> s[i] == s[1..][i - 1];
      IsSpace(s[0]) && AllSpace(s[1..])
  }

  /** The `notEmpty` validator on `name`: the error it raises, if any. */
  function NotEmptyError(name: string): (r: Option<string>)
    ensures r.None? <==> exists i :: 0 <= i < |name| && !IsSpace(name[i])
    ensures r.Some? ==> r.value == NotEmptyMessage
  {
    if AllSpace(name) then Some(NotEmptyMessage) else None
  }

  /** `name` is non-null, passes `notEmpty` and fits the column. */
  predicate NameValid(name: string) {
    NotEmptyError(name).None? && |name| <= NameMaxLength
  }

  /** The `isZeroOrLesser` validator on `groupStrength`: the error it throws, if any. */
  function GroupStrengthError(v: int): (r: Option<string>)
    ensures r.Some? <==> v <= 0
    ensures r.Some? ==> r.value == PositiveMessage
  {
    if v <= 0 then Some(PositiveMessage) else None
  }

  /** A row that every validator of the model accepts. */
  predicate ValidGroup(g: Group) {
    NameValid(g.name) && GroupStrengthError(g.groupStrength).None?
  }

  /** A new row with the column defaults: no image, a strength of 1. */
  function NewGroup(name: string, createdBy: UserId, image: Option<string> := None,
                    groupStrength: int := DefaultGroupStrength): (r: Group)
    ensures r.name == name && r.createdBy == createdBy
    ensures r.image == image && r.groupStrength == groupStrength
  {
    Group(name, image, groupStrength, createdBy)
  }

  /** The defaults alone give a row the validators accept, whatever valid name it has. */
  lemma DefaultsAreValid(name: string, createdBy: UserId)
    requires NameValid(name)
    ensures ValidGroup(NewGroup(name, createdBy))
    ensures NewGroup(name, createdBy).image.None? && NewGroup(name, createdBy).groupStrength == 1
  {
  }

  /** The `unique` constraint on `name`. */
  predicate UniqueNames(groups: seq<Group>) {
    forall i, j :: 0 <= i < j < |groups| ==> groups[i].name != groups[j].name
  }

  /** Whether a row other than the one at index `except` already has this name. */
  predicate NameTaken(groups: seq<Group>, name: string, except: Option<nat>) {
    exists i :: 0 <= i < |groups| && Some(i) != except && groups[i].name == name
  }

  /** Appending a row whose name is not taken keeps the names unique. */
  lemma {:induction false} AppendKeepsUnique(groups: seq<Group>, g: Group)
    requires UniqueNames(groups) && !NameTaken(groups, g.name, None)
    ensures UniqueNames(groups + [g])
  {
    var s := groups + [g];
    forall i, j | 0 <= i < j < |s| ensures s[i].name != s[j].name {
      if j == |groups| {
        assert s[i] == groups[i];
      } else {
        assert s[i] == groups[i] && s[j] == groups[j];
      }
    }
  }

  /** Renaming row `k` to a name no other row has keeps the names unique. */
  lemma RenameKeepsUnique(groups: seq<Group>, k: nat, g: Group)
    requires UniqueNames(groups) && k < |groups| && !NameTaken(groups, g.name, Some(k))
    ensures UniqueNames(groups[k := g])
  {
  }
}
