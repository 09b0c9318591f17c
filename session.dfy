/** The part of Streamlit's session-state dictionary that the record layer
    reads and writes: integer positions stored under string keys. */
module Session {

  class SessionState {
    var entries: map<string, int>

    constructor (entries: map<string, int>)
      ensures this.entries == entries
    {
      this.entries := entries;
    }

    /** `st.session_state[key] = value`. */
    method Put(key: string, value: int)
      modifies this
      ensures entries == old(entries)[key := value]
    {
      entries := entries[key := value];
    }

    /** `del st.session_state[key]`; Python raises `KeyError` on a key
        that is not present. */
    method Remove(key: string)
      requires key in entries
      modifies this
      ensures entries == old(entries) - {key}
    {
      entries := entries - {key};
    }
  }
}
