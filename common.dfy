/** Value types shared by every part of the model: optional values, results,
    RGB colours, integer coordinates and the sparse pixel map operations. */
module Common {

  datatype Option<+T> = None | Some(value: T)

  datatype Result<+T, +E> = Ok(value: T) | Err(error: E)

  /** An RGB triple. Channels are unbounded integers, as in the source. */
  datatype RGB = RGB(r: int, g: int, b: int)

  /** An integer coordinate pair (x, y). */
  type Pos = (int, int)

  function Min(a: int, b: int): int { if a <= b then a else b }

  function Max0(n: int): nat { if n <= 0 then 0 else n }

  /** Dictionary lookup with a default of None (`dict.get(k, None)`). */
  function Get<K, V>(m: map<K, V>, k: K): Option<V>
  {
    if k in m then Some(m[k]) else None
  }

  /** Two maps that agree on every lookup are equal. */
  lemma MapsEqual<K, V>(m1: map<K, V>, m2: map<K, V>)
    requires forall k :: Get(m1, k) == Get(m2, k)
    ensures m1 == m2
  {
    assert forall k :: k in m1 <==> k in m2 by {
      forall k ensures k in m1 <==> k in m2 {
        assert Get(m1, k).Some? <==> Get(m2, k).Some?;
      }
    }
    assert m1.Keys == m2.Keys;
    forall k | k in m1 ensures m1[k] == m2[k] {
      assert Get(m1, k) == Get(m2, k);
    }
  }

  /** The effect of `put_pixel(pos, color)` on a pixel dictionary: None deletes
      the key when present (a no-op otherwise), a colour inserts or overwrites. */
  function Put(m: map<Pos, RGB>, pos: Pos, color: Option<RGB>): (r: map<Pos, RGB>)
    ensures Get(r, pos) == color
    ensures forall q :: q != pos ==> Get(r, q) == Get(m, q)
  {
    if color.None? && pos in m then m - {pos}
    else if color.Some? then m[pos := color.value]
    else m
  }

  /** Deleting an absent or already deleted pixel changes nothing. */
  lemma PutNoneIdempotent(m: map<Pos, RGB>, pos: Pos)
    ensures Put(Put(m, pos, None), pos, None) == Put(m, pos, None)
    ensures pos !in m ==> Put(m, pos, None) == m
  {
  }
}
