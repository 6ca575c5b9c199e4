/**
 * The growable integer list (`struct arraylist`) and the batch tokeniser
 * `values` of jpegtran.c. The list is a `seq<int>`; the `realloc` outcome
 * of `arraylist_add` is a parameter, and `atoi` is an abstract function
 * from tokens to integers.
 */
module ArrayList {

  /** `arraylist_initial`: an empty list. */
  function Initial(): (list: seq<int>)
    ensures |list| == 0
  {
    []
  }

  /** `arraylist_get_size`. */
  function Size(list: seq<int>): (n: nat)
    ensures n == |list|
  {
    |list|
  }

  /** The list after `arraylist_add` together with the routine's return value. */
  datatype Added = Added(list: seq<int>, status: int)

  /**
   * `arraylist_add`: when the reallocation succeeds the value is appended and
   * the earlier elements stay as they were; when it fails the list is left
   * unchanged. Either way the routine reports 1.
   */
  function Add(list: seq<int>, value: int, reallocOk: bool): (r: Added)
    ensures r.status == 1
    ensures reallocOk ==> |r.list| == |list| + 1 && r.list[|list|] == value && r.list[..|list|] == list
    ensures !reallocOk ==> r.list == list
  {
    if reallocOk then Added(list + [value], 1) else Added(list, 1)
  }

  /**
   * The size `arraylist_get_size` reports grows by one exactly when
   * `arraylist_add`'s reallocation succeeds, and the reported status does
   * not tell the two cases apart.
   */
  lemma AddSize(list: seq<int>, value: int, reallocOk: bool)
    ensures Size(Add(list, value, reallocOk).list) == if reallocOk then Size(list) + 1 else Size(list)
    ensures Add(list, value, true).status == Add(list, value, false).status
  {
  }

  /** A batch token as returned by `strtok`. */
  type Token = string

  /**
   * `values`: consumes the tokens six at a time and appends `atoi` of each,
   * in token order, to a list that starts empty. A token count that is not a
   * multiple of six would make the routine call `atoi(NULL)`, hence the
   * precondition. Every reallocation is taken to succeed.
   */
  method Values(tokens: seq<Token>, atoi: Token -> int) returns (u: seq<int>)
    requires |tokens| % 6 == 0
    ensures |u| == |tokens|
    ensures |u| % 6 == 0
    ensures forall k :: 0 <= k < |u| ==> u[k] == atoi(tokens[k])
  {
    u := Initial();
    var i := 0;
    while i < |tokens|
      invariant 0 <= i <= |tokens|
      invariant i % 6 == 0
      invariant |u| == i
      invariant forall k :: 0 <= k < i ==> u[k] == atoi(tokens[k])
    {
      var r := Add(u, atoi(tokens[i]), true);          // [0]
      r := Add(r.list, atoi(tokens[i + 1]), true);     // [1]
      r := Add(r.list, atoi(tokens[i + 2]), true);     // [2]
      r := Add(r.list, atoi(tokens[i + 3]), true);     // [3]
      r := Add(r.list, atoi(tokens[i + 4]), true);     // [4]
      r := Add(r.list, atoi(tokens[i + 5]), true);     // [5]
      u := r.list;
      i := i + 6;
    }
  }
}
