/**
 * The navigation hook (`useNavigation`): the selected menu key as state, a
 * setter for it, and the total mapping from that key to the label of the
 * content to show.
 */
module Navigation {

  const InitialKey: string := "simple-example"

  const ContentLabels: set<string> := {"simple", "advanced", "overview", "changelog"}

  /** The `switch` of `getCurrentContent`, as a function of the key it reads. */
  function ContentFor(key: string): (r: string)
    ensures r in ContentLabels
  {
    match key
    case "simple-example" => "simple"
    case "advanced-example" => "advanced"
    case "overview" => "overview"
    case "changelog" => "changelog"
    case _ => "simple"
  }

  /**
   * Each label other than "simple" comes from exactly one key; "simple" comes
   * from "simple-example" and from every key the switch does not list.
   */
  lemma ContentForIff(key: string)
    ensures ContentFor(key) == "advanced" <==> key == "advanced-example"
    ensures ContentFor(key) == "overview" <==> key == "overview"
    ensures ContentFor(key) == "changelog" <==> key == "changelog"
    ensures ContentFor(key) == "simple" <==> key !in {"advanced-example", "overview", "changelog"}
  {
  }

  /** The hook's state. */
  class NavigationState {
    var selectedKey: string

    constructor ()
      ensures selectedKey == InitialKey
      ensures CurrentContent() == "simple"
    {
      selectedKey := InitialKey;
    }

    /** `handleMenuSelect`: the selected key becomes exactly `key`. */
    method HandleMenuSelect(key: string)
      modifies this
      ensures selectedKey == key
      ensures CurrentContent() == ContentFor(key)
    {
      selectedKey := key;
    }

    /** `getCurrentContent`: the label for the selected key. */
    function CurrentContent(): (r: string)
      reads this
      ensures r in ContentLabels
    {
      ContentFor(selectedKey)
    }
  }
}
