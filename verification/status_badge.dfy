/** The status badge (src/components/StatusBadge.tsx): the colour family of
    a status, looked up case-insensitively, and the label with its first
    letter upper-cased. Case mapping is ASCII only. */
module StatusBadge {

  import opened Text

  datatype Tone = Green | Blue | Red | Yellow | Orange | Gray

  /** The three class names of a badge. */
  datatype BadgeStyle = BadgeStyle(bg: string, dot: string, text: string)

  /** The statuses the badge's prop type lists. */
  const StatusTypes: set<string> := {
    "completed", "pending", "failed", "resolved", "investigating", "mitigated",
    "successful", "in-progress", "critical", "high", "medium", "low"}

  /** The `switch` on the lower-cased status. */
  function ToneOf(status: string): (tone: Tone)
    ensures tone == Green <==> ToLower(status) in {"completed", "resolved", "successful"}
    ensures tone == Blue <==> ToLower(status) in {"pending", "in-progress", "mitigated", "low"}
    ensures tone == Red <==> ToLower(status) in {"failed", "critical"}
    ensures tone == Yellow <==> ToLower(status) in {"investigating", "medium"}
    ensures tone == Orange <==> ToLower(status) == "high"
    ensures tone == Gray <==> ToLower(status) !in StatusTypes
  {
    var s := ToLower(status);
    if s == "completed" || s == "resolved" || s == "successful" then Green
    else if s == "pending" || s == "in-progress" || s == "mitigated" then Blue
    else if s == "failed" then Red
    else if s == "investigating" then Yellow
    else if s == "critical" then Red
    else if s == "high" then Orange
    else if s == "medium" then Yellow
    else if s == "low" then Blue
    else Gray
  }

  function Style(tone: Tone): BadgeStyle {
    match tone
    case Green => BadgeStyle("bg-green-100 text-green-800", "bg-green-600", "text-green-700")
    case Blue => BadgeStyle("bg-blue-100 text-blue-800", "bg-blue-600", "text-blue-700")
    case Red => BadgeStyle("bg-red-100 text-red-800", "bg-red-600", "text-red-700")
    case Yellow => BadgeStyle("bg-yellow-100 text-yellow-800", "bg-yellow-600", "text-yellow-700")
    case Orange => BadgeStyle("bg-orange-100 text-orange-800", "bg-orange-600", "text-orange-700")
    case Gray => BadgeStyle("bg-gray-100 text-gray-800", "bg-gray-600", "text-gray-700")
  }

  /** `getStatusColor(status)`. */
  function GetStatusColor(status: string): (style: BadgeStyle)
    ensures style == Style(ToneOf(status))
    ensures style == Style(Gray) <==> ToLower(status) !in StatusTypes
  {
    StyleInjective(ToneOf(status), Gray);
    Style(ToneOf(status))
  }

  /** Every tone has its own style: the style tells the tone. */
  lemma StyleInjective(a: Tone, b: Tone)
    ensures Style(a) == Style(b) <==> a == b
  {
  }

  lemma {:induction false} ToLowerIdempotent(s: string)
    ensures ToLower(ToLower(s)) == ToLower(s)
  {
    var l := ToLower(s);
    assert forall i :: 0 <= i < |s| ==> LowerChar(l[i]) == l[i];
  }

  /** The lookup ignores case: statuses that agree once lower-cased get
      the same colours, and so does a status and its lower-cased form. */
  lemma CaseInsensitive(a: string, b: string)
    requires ToLower(a) == ToLower(b)
    ensures GetStatusColor(a) == GetStatusColor(b)
    ensures GetStatusColor(ToLower(a)) == GetStatusColor(a)
  {
    ToLowerIdempotent(a);
  }

  /** The badge label: `status.charAt(0).toUpperCase() + status.slice(1)`. */
  function Capitalize(status: string): (caption: string)
    ensures |caption| == |status|
    ensures |status| > 0 ==> caption[0] == UpperChar(status[0]) && caption[1..] == status[1..]
  {
    if |status| == 0 then "" else [UpperChar(status[0])] + status[1..]
  }

  /** The label is the status up to the case of its first letter: both
      lower-case the same, so the label would get the status's colours. */
  lemma CapitalizeKeepsColour(status: string)
    ensures ToLower(Capitalize(status)) == ToLower(status)
    ensures GetStatusColor(Capitalize(status)) == GetStatusColor(status)
  {
    var caption := Capitalize(status);
    if |status| > 0 {
      LowerOfUpper(status[0]);
      assert forall i :: 0 <= i < |status| ==> LowerChar(caption[i]) == LowerChar(status[i]);
    }
  }

  /** Capitalising twice is capitalising once. */
  lemma CapitalizeIdempotent(status: string)
    ensures Capitalize(Capitalize(status)) == Capitalize(status)
  {
    if |status| > 0 {
      assert UpperChar(UpperChar(status[0])) == UpperChar(status[0]);
    }
  }
}
