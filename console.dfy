/**
 * The interactive console, with the operator's answers given in advance as a
 * finite sequence. Where the command would ask again for ever, the model
 * reports that the answers ran out.
 */
module Console {

  /** What an interactive read ends with: an accepted answer, or no more answers. */
  datatype Answer<T> = Answered(value: T) | Exhausted

  /** answers[i] is the first answer that is one of the keys. */
  predicate FirstKeyAt(keys: seq<string>, answers: seq<string>, i: int) {
    0 <= i < |answers| && answers[i] in keys && forall j :: 0 <= j < i ==> answers[j] !in keys
  }

  /**
   * select(): asks again until the operator types one of the option keys,
   * and returns that key.
   */
  function Select(keys: seq<string>, answers: seq<string>): (r: Answer<string>)
    ensures r.Exhausted? <==> forall j :: 0 <= j < |answers| ==> answers[j] !in keys
    ensures r.Answered? ==> r.value in keys && exists i :: FirstKeyAt(keys, answers, i) && answers[i] == r.value
  {
    if answers == [] then Exhausted
    else if answers[0] in keys then Answered(answers[0])
    else
      var r := Select(keys, answers[1..]);
      assert forall j :: 1 <= j < |answers| ==> answers[j] == answers[1..][j - 1];
      if r.Answered? then
        var i :| FirstKeyAt(keys, answers[1..], i) && answers[1..][i] == r.value;
        assert FirstKeyAt(keys, answers, i + 1);
        r
      else r
  }
}
