/** The server-side Flask session: a map from keys to the values the app
    stores. A key set to Python's `None` holds `Null`; a popped key is absent
    from the map. */
module SessionStore {
  import Comparator

  /** One checked sentence, as `check_answer` records it; the feedback is kept
      as the verdict sequence the source renders to HTML. */
  datatype Attempt = Attempt(
    original: string,
    userInput: string,
    feedback: seq<Comparator.Verdict>,
    isCorrect: bool)

  datatype Value =
    | Null
    | Bool(b: bool)
    | Int(i: int)
    | Str(s: string)
    | StrList(items: seq<string>)
    | Feedback(verdicts: seq<Comparator.Verdict>)
    | AttemptLog(log: seq<Attempt>)

  type Session = map<string, Value>

  /** `session.get(key, default)`. */
  function Get(s: Session, key: string, default: Value): Value
  {
    if key in s then s[key] else default
  }
}
