/** The colour class of a character's status badge (`getStatusClass`). */
module StatusClass {
  import opened Text

  const AliveClass := "bg-green-400"
  const DeadClass := "bg-red-300"
  const OtherClass := "bg-gray-300"

  /** The switch on the lower-cased status: alive is green, dead is red, anything else grey. */
  function GetStatusClass(status: string): (r: string)
    ensures r == AliveClass <==> Lower(status) == "alive"
    ensures r == DeadClass <==> Lower(status) == "dead"
    ensures r == OtherClass <==> Lower(status) != "alive" && Lower(status) != "dead"
  {
    match Lower(status)
    case "alive" => AliveClass
    case "dead" => DeadClass
    case _ => OtherClass
  }

  /** The badge ignores the case of the status: two spellings that lower-case alike get one class. */
  lemma StatusClassIgnoresCase(s: string, t: string)
    requires Lower(s) == Lower(t)
    ensures GetStatusClass(s) == GetStatusClass(t)
  {
  }

  /** In particular the class of a status is the class of its lower-cased form. */
  lemma StatusClassOfLowered(s: string)
    ensures GetStatusClass(Lower(s)) == GetStatusClass(s)
  {
    LowerIdempotent(s);
    StatusClassIgnoresCase(Lower(s), s);
  }

  /** The API's three statuses, as it spells them, get green, red and grey. */
  lemma StatusClassExamples()
    ensures GetStatusClass("Alive") == AliveClass
    ensures GetStatusClass("Dead") == DeadClass
    ensures GetStatusClass("unknown") == OtherClass
  {
    assert Lower("Alive") == "alive";
    assert Lower("Dead") == "dead";
    assert Lower("unknown") == "unknown";
  }
}
