/** The department screen's header title:
    `id.charAt(0).toUpperCase() + id.slice(1)`. `toUpperCase` is modelled for
    ASCII letters only; every other character is left as it is. */
module DepartmentTitle {

  function UpperChar(c: char): char {
    if 'a' <= c <= 'z' then (c as int - 'a' as int + 'A' as int) as char else c
  }

  /** `String.prototype.toUpperCase`, character by character. */
  function ToUpperCase(s: string): (u: string)
    ensures |u| == |s|
    ensures forall i :: 0 <= i < |s| ==> u[i] == UpperChar(s[i])
  {
    if s == [] then [] else [UpperChar(s[0])] + ToUpperCase(s[1..])
  }

  /** `s.charAt(0)`: the first character, or the empty string. */
  function CharAt0(s: string): string {
    if s == [] then [] else [s[0]]
  }

  /** `s.slice(1)`: everything after the first character. */
  function Slice1(s: string): string {
    if s == [] then [] else s[1..]
  }

  function HeaderTitle(id: string): string {
    ToUpperCase(CharAt0(id)) + Slice1(id)
  }

  /** The title is the id with only its first character upper-cased: same
      length, first character upper-cased, the rest unchanged; an empty id
      gives an empty title. */
  lemma HeaderTitleShape(id: string)
    ensures |HeaderTitle(id)| == |id|
    ensures id == [] ==> HeaderTitle(id) == []
    ensures id != [] ==> HeaderTitle(id)[0] == UpperChar(id[0]) && HeaderTitle(id)[1..] == id[1..]
  {
    if id != [] {
      assert HeaderTitle(id) == [UpperChar(id[0])] + id[1..];
    }
  }

  /** Capitalising a title again gives the same title. */
  lemma HeaderTitleIdempotent(id: string)
    ensures HeaderTitle(HeaderTitle(id)) == HeaderTitle(id)
  {
    HeaderTitleShape(id);
    var t := HeaderTitle(id);
    HeaderTitleShape(t);
    if id != [] {
      assert HeaderTitle(t) == [UpperChar(t[0])] + t[1..];
      assert t == [t[0]] + t[1..];
    }
  }

  /** The department ids the department list links to, with the names it shows
      for them. */
  const Departments: seq<(string, string)> := [
    ("cardiology", "Cardiology"), ("neurology", "Neurology"),
    ("orthopedics", "Orthopedics"), ("pediatrics", "Pediatrics"),
    ("dermatology", "Dermatology"), ("radiology", "Radiology")]

  /** A title is determined by its id's first character and the rest. */
  lemma HeaderTitleOf(id: string, name: string)
    requires id != [] && name != [] && name[0] == UpperChar(id[0]) && name[1..] == id[1..]
    ensures HeaderTitle(id) == name
  {
    HeaderTitleShape(id);
    assert name == [name[0]] + name[1..];
    assert HeaderTitle(id) == [HeaderTitle(id)[0]] + HeaderTitle(id)[1..];
  }

  /** Every department's header title is the name the department list shows. */
  lemma DepartmentHeaderTitles()
    ensures forall k :: 0 <= k < |Departments| ==> HeaderTitle(Departments[k].0) == Departments[k].1
  {
    HeaderTitleOf("cardiology", "Cardiology");
    HeaderTitleOf("neurology", "Neurology");
    HeaderTitleOf("orthopedics", "Orthopedics");
    HeaderTitleOf("pediatrics", "Pediatrics");
    HeaderTitleOf("dermatology", "Dermatology");
    HeaderTitleOf("radiology", "Radiology");
  }
}
