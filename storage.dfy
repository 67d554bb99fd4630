/**
  The browser's `localStorage`: a string-to-string store that the page reads
  and writes one key at a time.
 */
module Storage {
  import opened Options

  /** The key under which the settings panel keeps the API key. */
  const GrokApiKey := "grokApiKey"

  class LocalStorage {
    var items: map<string, string>

    constructor ()
      ensures items == map[]
    {
      items := map[];
    }

    /** `getItem(key)`: the stored string, or null when the key was never set. */
    function GetItem(key: string): (r: Option<string>)
      reads this
      ensures r.Some? <==> key in items
      ensures r.Some? ==> r.value == items[key]
    {
      if key in items then Some(items[key]) else None
    }

    /** `setItem(key, value)`: only that key changes. */
    method SetItem(key: string, value: string)
      modifies this
      ensures items == old(items)[key := value]
    {
      items := items[key := value];
    }
  }
}
