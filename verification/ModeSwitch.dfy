/**
  The settling loop of switch_t7xx_mode (pwl-fwupdate/pwl_fwupdate.c): the modem counts as being
  in fastboot mode once it has answered a query often enough in a row.
 */
module ModeSwitch {
  import opened CText

  const GETVER_RETRY_LIMIT: nat := 50
  const FB_CMD_CONTINUE_SUCCESS_TH: nat := 10

  predicate Okay(replies: nat -> string, i: nat) {
    Contains(replies(i), "OKAY")
  }

  /** The eleven polls from the `i`-th on are all answered with OKAY. */
  ghost predicate Window(replies: nat -> string, i: nat) {
    forall j: nat :: i <= j <= i + 10 ==> Okay(replies, j)
  }

  /** The last `run` of the first `n` polls are all the good ones in a row at that point. */
  ghost predicate RunOf(replies: nat -> string, n: nat, run: nat) {
    && run <= n
    && (forall j: nat :: n - run <= j < n ==> Okay(replies, j))
    && (run < n ==> !Okay(replies, n - run - 1))
  }

  /** Success exactly when some eleven consecutive polls among the first fifty are answered with OKAY. */
  method PollFastboot(replies: nat -> string) returns (ok: bool)
    ensures ok <==> exists i: nat :: i + 10 < 50 && Window(replies, i)
  {
    var count: nat := 0;
    var i: nat := 0;
    while i < GETVER_RETRY_LIMIT
      invariant i <= GETVER_RETRY_LIMIT && RunOf(replies, i, count) && count <= FB_CMD_CONTINUE_SUCCESS_TH
      invariant forall k: nat :: k + FB_CMD_CONTINUE_SUCCESS_TH < i ==> !Window(replies, k)
    {
      if Contains(replies(i), "OKAY") {
        count := count + 1;
        if count > FB_CMD_CONTINUE_SUCCESS_TH {
          assert Window(replies, i - FB_CMD_CONTINUE_SUCCESS_TH);
          return true;
        }
        NoWindowYet(replies, i + 1, count);
      } else {
        count := 0;
        assert !Okay(replies, i);
      }
      i := i + 1;
    }
    ok := false;
  }

  lemma NoWindowYet(replies: nat -> string, n: nat, run: nat)
    requires RunOf(replies, n, run) && run <= FB_CMD_CONTINUE_SUCCESS_TH
    ensures n > FB_CMD_CONTINUE_SUCCESS_TH ==> !Window(replies, n - 1 - FB_CMD_CONTINUE_SUCCESS_TH)
  {
    assert run < n ==> !Okay(replies, n - run - 1);
  }
}
