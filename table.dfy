/**
 * `SELECT * FROM t WHERE p`, as the handlers see it: the result holds only matching
 * rows and every matching row, it is empty exactly when no row matches, and its
 * first element is the first matching row.  Nothing more about its order or its
 * multiplicities is stated, since the handlers read only its length and `results[0]`.
 */
module Table {

  /** Row `k` is the first row of `rows` satisfying `p`. */
  ghost predicate IsFirst<T>(rows: seq<T>, p: T -> bool, k: int) {
    0 <= k < |rows| && p(rows[k]) && forall j :: 0 <= j < k ==> !p(rows[j])
  }

  function Select<T>(rows: seq<T>, p: T -> bool): (r: seq<T>)
    ensures |r| <= |rows|
    ensures forall i :: 0 <= i < |r| ==> r[i] in rows && p(r[i])
    ensures forall k :: 0 <= k < |rows| && p(rows[k]) ==> rows[k] in r
    ensures |r| > 0 <==> exists k :: 0 <= k < |rows| && p(rows[k])
    ensures |r| > 0 ==> exists k :: IsFirst(rows, p, k) && r[0] == rows[k]
  {
    if rows == [] then []
    else
      var rest := Select(rows[1..], p);
      if p(rows[0]) then
        assert IsFirst(rows, p, 0);
        [rows[0]] + rest
      else
        assert |rest| > 0 ==> exists k :: IsFirst(rows, p, k) && rest[0] == rows[k] by {
          if |rest| > 0 {
            var k :| IsFirst(rows[1..], p, k) && rest[0] == rows[1..][k];
            assert IsFirst(rows, p, k + 1);
          }
        }
        rest
  }
}
