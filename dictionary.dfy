/** The caller-owned `Dictionary<string, string>` that the reader fills in place. */
module Dictionaries {

  class Dictionary {
    /** The key-to-text entries currently held. */
    var entries: map<string, string>

    /** A table handed to the reader, empty or already partly filled. */
    constructor (initial: map<string, string>)
      ensures entries == initial
    {
      entries := initial;
    }

    /** `Dictionary.ContainsKey`. */
    method ContainsKey(key: string) returns (present: bool)
      ensures present <==> key in entries
    {
      present := key in entries;
    }

    /** `Dictionary.Add` of a key that is not yet present. */
    method Add(key: string, value: string)
      requires key !in entries
      modifies this
      ensures entries == old(entries)[key := value]
    {
      entries := entries[key := value];
    }
  }
}
