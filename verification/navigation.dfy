/** The pagination buttons under the table: where each one leads and when it is disabled. */
module Navigation {

  /** "<<", "<", one numbered button per page, ">", ">>". `Numbered(k)` is
      the button for key `k` of `[...Array(totalPages).keys()]`. */
  datatype NavButton = First | Previous | Numbered(index: nat) | Next | Last

  /** The numbered buttons for keys `from` up to `total - 1`. */
  function NumberedButtons(from: nat, total: nat): seq<NavButton>
    decreases total - from
  {
    if from >= total then [] else [Numbered(from)] + NumberedButtons(from + 1, total)
  }

  /** The buttons rendered when there are `total` pages, in order. */
  function Buttons(total: nat): seq<NavButton> {
    [First, Previous] + NumberedButtons(0, total) + [Next, Last]
  }

  /** `b` is one of the buttons rendered for `total` pages. */
  predicate Rendered(b: NavButton, total: nat) {
    b.Numbered? ==> b.index < total
  }

  lemma {:induction false} NumberedButtonsAre(from: nat, total: nat)
    ensures forall b :: b in NumberedButtons(from, total) <==> b.Numbered? && from <= b.index < total
    decreases total - from
  {
    if from < total {
      NumberedButtonsAre(from + 1, total);
    }
  }

  /** The rendered list holds exactly the buttons `Rendered` admits. */
  lemma ButtonsAreRendered(total: nat)
    ensures forall b :: b in Buttons(total) <==> Rendered(b, total)
  {
    NumberedButtonsAre(0, total);
  }

  /** The `disabled` attributes: only "<" and ">" carry one. "<" is disabled
      on page 1 and ">" on page `total`, whatever `total` is. */
  function Disabled(b: NavButton, page: int, total: nat): (d: bool)
    ensures d ==> b == Previous || b == Next
    ensures b == Previous ==> (d <==> page == 1)
    ensures b == Next ==> (d <==> page == total)
  {
    (b == Previous && page == 1) || (b == Next && page == total)
  }

  /** The page after clicking `b` on page `page`: a disabled button does
      nothing; otherwise the page becomes the argument the button passes to
      `handlePaginationClick`. */
  function Click(b: NavButton, page: int, total: nat): (p: int)
    ensures b == First ==> p == 1
    ensures b == Last ==> p == total
    ensures b.Numbered? ==> p == b.index + 1
    ensures b == Previous ==> p == if page == 1 then 1 else page - 1
    ensures b == Next ==> p == if page == total then page else page + 1
    ensures p != page ==> !Disabled(b, page, total)
  {
    if Disabled(b, page, total) then page
    else match b
      case First => 1
      case Previous => page - 1
      case Numbered(k) => k + 1
      case Next => page + 1
      case Last => total
  }

  /** The numbered buttons lead to exactly the pages 1 to `total`: each
      rendered one leads into that range, and page `k + 1` has button `k`. */
  lemma NumberedTargetsArePages(page: int, total: nat)
    ensures forall b :: b in Buttons(total) && b.Numbered? ==> 1 <= Click(b, page, total) <= total
    ensures forall k: nat :: k < total ==> Numbered(k) in Buttons(total) && Click(Numbered(k), page, total) == k + 1
  {
    ButtonsAreRendered(total);
  }

  /** Starting from a page between 1 and `total`, no rendered button leads out of that range. */
  lemma ClickStaysInRange(b: NavButton, page: int, total: nat)
    requires 1 <= page <= total && Rendered(b, total)
    ensures 1 <= Click(b, page, total) <= total
  {
  }

  /** Nothing keeps the page number in range when there are no pages:
      ">>" leads to page 0, and "<" stays enabled there and leads to page -1. */
  lemma EmptyTableLeavesRange(page: int)
    ensures Click(Last, page, 0) == 0
    ensures !Disabled(Previous, 0, 0) && Click(Previous, 0, 0) == -1
  {
  }

  /** Past the last page ">" stays enabled and leads further away. */
  lemma NextPastEnd(page: int, total: nat)
    requires page > total
    ensures !Disabled(Next, page, total) && Click(Next, page, total) == page + 1
  {
  }
}
