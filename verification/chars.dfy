/** Character helpers both the builder and the tokenizer use: inclusive
    character ranges as Rust's `RangeInclusive<char>` yields them, and the
    decimal value of a digit. */
module Chars {
  import opened Wrappers

  /** Code points from `k` to `hi` in ascending order, skipping the
      surrogate block, which holds no `char`. */
  function RangeFrom(k: nat, hi: int): string
    requires hi < 0x11_0000
    decreases hi - k + 1
  {
    if k > hi then []
    else if 0xD800 <= k < 0xE000 then RangeFrom(k + 1, hi)
    else [k as char] + RangeFrom(k + 1, hi)
  }

  /** The range holds exactly the characters from `k` to `hi`. */
  lemma {:induction false} RangeFromMembers(k: nat, hi: int, c: char)
    requires hi < 0x11_0000
    ensures c in RangeFrom(k, hi) <==> k <= c as int <= hi
    decreases hi - k + 1
  {
    if k <= hi {
      RangeFromMembers(k + 1, hi, c);
    }
  }

  /** The range is strictly ascending. */
  lemma {:induction false} RangeFromAscending(k: nat, hi: int, i: nat, j: nat)
    requires hi < 0x11_0000 && i < j < |RangeFrom(k, hi)|
    ensures RangeFrom(k, hi)[i] < RangeFrom(k, hi)[j]
    decreases hi - k + 1
  {
    var rest := RangeFrom(k + 1, hi);
    if 0xD800 <= k < 0xE000 {
      RangeFromAscending(k + 1, hi, i, j);
    } else if i == 0 {
      RangeFromMembers(k + 1, hi, rest[j - 1]);
    } else {
      RangeFromAscending(k + 1, hi, i - 1, j - 1);
    }
  }

  /** `(lo..=hi).collect::<String>()`: every character from `lo` to `hi`,
      both included, in ascending order; empty when `hi < lo`. */
  function CharRange(lo: char, hi: char): (r: string)
    ensures forall c :: c in r <==> lo <= c <= hi
  {
    var r := RangeFrom(lo as int, hi as int);
    assert forall c :: c in r <==> lo <= c <= hi by {
      forall c ensures c in r <==> lo <= c <= hi {
        RangeFromMembers(lo as int, hi as int, c);
      }
    }
    r
  }

  /** The range is collected in ascending order. */
  lemma CharRangeAscending(lo: char, hi: char, i: nat, j: nat)
    requires i < j < |CharRange(lo, hi)|
    ensures CharRange(lo, hi)[i] < CharRange(lo, hi)[j]
  {
    RangeFromAscending(lo as int, hi as int, i, j);
  }

  /** `to_digit(10)`: the value of an ASCII decimal digit, `None` for any
      other character. */
  function Digit(c: char): (d: Option<int>)
    ensures d.Some? <==> '0' <= c <= '9'
    ensures d.Some? ==> 0 <= d.value <= 9 && d.value == c as int - '0' as int
  {
    if '0' <= c <= '9' then Some(c as int - '0' as int) else None
  }
}
