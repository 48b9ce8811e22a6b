/** ethercatmain.c: the counter in the header of every mailbox. */
module Mailboxes {
  /** ec_nextmbxcnt: from 1 to 7 and round again. */
  function NextCnt(cnt: nat): nat { if cnt + 1 > 7 then 1 else cnt + 1 }

  /** The counter of the n-th mailbox from now. */
  function Counter(cnt: nat, n: nat): nat { if n == 0 then cnt else NextCnt(Counter(cnt, n - 1)) }

  /** It is never 0, and repeats after seven mailboxes and no sooner. */
  lemma {:induction false} RoundOfSeven(cnt: nat, n: nat)
    requires cnt < 8 && n > 0
    ensures Counter(cnt, n) == (cnt + n - 1) % 7 + 1
  {
    if n > 1 {
      RoundOfSeven(cnt, n - 1);
    }
  }

  lemma {:induction false} CounterFromNext(cnt: nat, n: nat)
    ensures Counter(cnt, n + 1) == Counter(NextCnt(cnt), n)
  {
    if n > 0 {
      CounterFromNext(cnt, n - 1);
    }
  }

  lemma {:induction false} NoneCounted(cnt: nat)
    ensures Counter(cnt, 0) == cnt
  {
  }
}
