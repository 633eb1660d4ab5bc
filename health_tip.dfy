/** The health-tip details screen's route parameters. A parameter arrives as a
    string, an array of strings, or not at all; the screen reads
    `Array.isArray(p) ? p[0] : p || ""`, which binds as
    `Array.isArray(p) ? p[0] : (p || "")`, so the `""` fallback applies only
    to the non-array case. */
module HealthTip {
  import opened Wrappers

  datatype Param = Absent | Text(s: string) | List(items: seq<string>)

  /** The normalised value; `None` is `undefined` (`p[0]` of an empty array). */
  function Normalize(p: Param): Option<string> {
    match p
      case List(items) => if |items| > 0 then Some(items[0]) else None
      case Text(s) => Some(if s != "" then s else "")
      case Absent => Some("")
  }

  /** `imageUri !== ""`: `undefined` is not `""`, so it counts as shown. */
  predicate ShowsImage(imageUri: Option<string>) {
    imageUri != Some("")
  }

  datatype Params = Params(title: Param, description: Param, image: Param)

  /** What the screen renders: title, description, and the image when shown. */
  datatype TipView = TipView(title: Option<string>, description: Option<string>, imageUri: Option<string>, imageShown: bool)

  function Details(p: Params): TipView {
    var imageUri := Normalize(p.image);
    TipView(Normalize(p.title), Normalize(p.description), imageUri, ShowsImage(imageUri))
  }

  /** An array normalises to its first element, with no `""` fallback, and an
      empty array to `undefined`. */
  lemma NormalizeList(items: seq<string>)
    ensures |items| > 0 ==> Normalize(List(items)) == Some(items[0])
    ensures |items| == 0 ==> Normalize(List(items)) == None
  {
  }

  /** A string normalises to itself; an absent parameter to `""`. */
  lemma NormalizeText(s: string)
    ensures Normalize(Text(s)) == Some(s)
    ensures Normalize(Absent) == Some("")
  {
  }

  /** The normalised value is `""` exactly for an absent parameter, the empty
      string, or an array whose first element is empty. */
  lemma NormalizeEmpty(p: Param)
    ensures Normalize(p) == Some("") <==>
      p == Absent || p == Text("") || (p.List? && |p.items| > 0 && p.items[0] == "")
  {
  }

  /** The image is shown exactly when the normalised image is not `""`; an
      empty array therefore shows it (with an `undefined` source). */
  lemma ImageShownIff(p: Params)
    ensures Details(p).imageShown <==> Normalize(p.image) != Some("")
    ensures p.image == List([]) ==> Details(p).imageShown && Details(p).imageUri == None
    ensures p.image == Absent || p.image == Text("") ==> !Details(p).imageShown
  {
  }

  /** Each rendered value depends on its own parameter only. */
  lemma ParamsIndependent(p: Params, q: Params)
    ensures p.title == q.title ==> Details(p).title == Details(q).title
    ensures p.description == q.description ==> Details(p).description == Details(q).description
    ensures p.image == q.image ==> Details(p).imageUri == Details(q).imageUri && Details(p).imageShown == Details(q).imageShown
  {
  }
}
