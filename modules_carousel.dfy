/** The 3D modules carousel: an active index into a fixed, circular list of course
    modules, moved one step at a time, and the per-card placement derived from each
    card's signed circular distance to the active card. */
module ModulesCarousel {

  /** A course module shown on one card (its icon is a component reference and is left out). */
  datatype CourseModule = CourseModule(title: string, subtitle: string, description: string, color: string)

  const Modules: seq<CourseModule> := [
    CourseModule("Mentalidade", "Módulo 01",
      "Desbloqueie a produtividade e os segredos da mente de quem fatura alto.", "cyan"),
    CourseModule("Mineração", "Módulo 02",
      "Encontre oceanos azuis (nichos sem concorrência) antes de todo mundo.", "purple"),
    CourseModule("Viralização", "Módulo 03",
      "A alquimia dos roteiros que prendem a atenção e explodem em views.", "yellow"),
    CourseModule("Design Dark", "Módulo 04",
      "Crie thumbnails impossíveis de ignorar e edições cinemáticas.", "pink"),
    CourseModule("Algoritmo", "Módulo 05",
      "SEO Profundo. Faça o YouTube trabalhar para você 24 horas por dia.", "emerald"),
    CourseModule("Monetização", "Módulo 06",
      "O cofre infinito: Venda produtos e parcerias além do AdSense.", "amber")
  ]

  // ---------------------------------------------------------------------------
  // Index arithmetic

  /** `(k + 1) % n`: one step forward, wrapping from the last card to the first. */
  function NextIndex(k: nat, n: nat): (r: nat)
    requires k < n
    ensures r < n
    ensures r == if k == n - 1 then 0 else k + 1
  {
    (k + 1) % n
  }

  /** `(k - 1 + n) % n`: one step back, wrapping from the first card to the last. */
  function PrevIndex(k: nat, n: nat): (r: nat)
    requires k < n
    ensures r < n
    ensures r == if k == 0 then n - 1 else k - 1
  {
    (k - 1 + n) % n
  }

  lemma PrevAfterNext(k: nat, n: nat)
    requires k < n
    ensures PrevIndex(NextIndex(k, n), n) == k
  {
  }

  lemma NextAfterPrev(k: nat, n: nat)
    requires k < n
    ensures NextIndex(PrevIndex(k, n), n) == k
  {
  }

  /** The signed circular distance from the active card to card `index`, as the render step
      computes it: `index - active`, minus `n` when above `n / 2`, plus `n` when below `-n / 2`
      (JavaScript compares with real division, hence the comparisons on `2 * offset`). */
  function CircularOffset(index: nat, active: nat, n: nat): (offset: int)
    requires index < n && active < n
    ensures 0 <= 2 * offset + n && 2 * offset <= n
    ensures Congruent(offset, index, active, n)
    ensures offset == 0 <==> index == active
    ensures 2 * offset == n ==> index > active
    ensures 2 * offset + n == 0 ==> index < active
  {
    var raw := index - active;
    var wrapped := if 2 * raw > n then raw - n else raw;
    if 2 * wrapped + n < 0 then wrapped + n else wrapped
  }

  /** `d` names the position of card `index` relative to `active` on a circle of `n`:
      it differs from `index - active` by at most one full turn. */
  predicate Congruent(d: int, index: nat, active: nat, n: nat) {
    d == index - active || d == index - active - n || d == index - active + n
  }

  /** Among the values congruent to `index - active`, the offset is the only one within the
      half-circle; on an even circle the opposite card gets `+n/2` exactly when it lies after
      the active one. */
  lemma OffsetUnique(index: nat, active: nat, n: nat, d: int)
    requires index < n && active < n
    requires Congruent(d, index, active, n)
    requires 0 <= 2 * d + n && 2 * d <= n
    requires 2 * d == n ==> index > active
    requires 2 * d + n == 0 ==> index < active
    ensures d == CircularOffset(index, active, n)
  {
  }

  /** The offset is congruent to `index - active` modulo `n`. */
  lemma OffsetCongruentModN(index: nat, active: nat, n: nat)
    requires index < n && active < n
    ensures (CircularOffset(index, active, n) - (index - active)) % n == 0
  {
    var d := CircularOffset(index, active, n) - (index - active);
    assert d == 0 || d + n == 0 || d == n;
    if d == n {
      assert d % n == (0 + n) % n == 0 % n;
    } else if d + n == 0 {
      assert d % n == (0 - n) % n == 0 % n;
    }
  }

  /** Exactly one card, the one at the active index, has offset 0. */
  lemma ExactlyOneActive(active: nat, n: nat)
    requires active < n
    ensures (set index: nat | index < n && CircularOffset(index, active, n) == 0) == {active}
  {
  }

  // ---------------------------------------------------------------------------
  // Layout

  /** The integer part of a card's placement: horizontal shift in percent, depth, rotation
      about the vertical axis in degrees, and stacking order. Scale, opacity, blur and
      brightness are floating point and left out. */
  datatype CardLayout = CardLayout(xPercent: int, z: int, rotateY: int, zIndex: int, isActive: bool)

  function Abs(x: int): nat {
    if x < 0 then -x else x
  }

  /** The placement of the card at `offset`. */
  function Layout(offset: int): (l: CardLayout)
    ensures l.isActive <==> offset == 0
    ensures l.zIndex <= 100 && (l.zIndex == 100 <==> l.isActive)
    ensures l.z <= 0 && (l.z == 0 <==> l.isActive)
    ensures (l.xPercent > 0 <==> offset > 0) && (l.xPercent < 0 <==> offset < 0)
    ensures (l.rotateY < 0 <==> l.xPercent > 0) && (l.rotateY > 0 <==> l.xPercent < 0)
  {
    CardLayout(offset * 60, Abs(offset) * -350, offset * -35, 100 - Abs(offset), offset == 0)
  }

  /** Cards at opposite offsets are mirror images: shift and rotation flip, depth and order stay. */
  lemma LayoutMirror(offset: int)
    ensures Layout(-offset).xPercent == -Layout(offset).xPercent
    ensures Layout(-offset).rotateY == -Layout(offset).rotateY
    ensures Layout(-offset).z == Layout(offset).z
    ensures Layout(-offset).zIndex == Layout(offset).zIndex
  {
  }

  /** A card nearer the active one is drawn in front of, and less far back than, a farther one. */
  lemma NearerCardInFront(near: int, far: int)
    requires Abs(near) < Abs(far)
    ensures Layout(near).zIndex > Layout(far).zIndex
    ensures Layout(near).z > Layout(far).z
  {
  }

  /** The placements of all `n` cards for one active index. */
  function Scene(active: nat, n: nat): (cards: seq<CardLayout>)
    requires active < n
    ensures |cards| == n
    ensures cards[active].isActive
    ensures forall index :: 0 <= index < n && index != active ==>
      !cards[index].isActive && cards[index].zIndex < cards[active].zIndex
  {
    seq(n, index requires 0 <= index < n => Layout(CircularOffset(index, active, n)))
  }

  // ---------------------------------------------------------------------------
  // Clicks

  /** The active index after a click on card `index`: nothing on the active card, one step
      forward on a card with positive offset, one step back otherwise. */
  function AfterClick(active: nat, index: nat, n: nat): (r: nat)
    requires active < n && index < n
    ensures r < n
  {
    var offset := CircularOffset(index, active, n);
    if offset == 0 then active
    else if offset > 0 then NextIndex(active, n)
    else PrevIndex(active, n)
  }

  /** A click never jumps: it leaves the index, or moves it by one step either way. */
  lemma ClickIsOneStep(active: nat, index: nat, n: nat)
    requires active < n && index < n
    ensures index == active ==> AfterClick(active, index, n) == active
    ensures index != active ==>
      AfterClick(active, index, n) == NextIndex(active, n) || AfterClick(active, index, n) == PrevIndex(active, n)
    ensures CircularOffset(index, active, n) > 0 ==> AfterClick(active, index, n) == NextIndex(active, n)
    ensures CircularOffset(index, active, n) < 0 ==> AfterClick(active, index, n) == PrevIndex(active, n)
  {
  }

  /** On the six-card circle the card opposite the active one is reached forward when its
      index is the larger of the two and backward otherwise, so the two directions differ. */
  lemma ClickOppositeCard()
    ensures AfterClick(0, 3, 6) == 1
    ensures AfterClick(3, 0, 6) == 2
    ensures AfterClick(1, 4, 6) == 2 && AfterClick(4, 1, 6) == 3
  {
  }

  /** Each click on a card brings it exactly one step nearer the centre. */
  lemma ClickApproaches(active: nat, index: nat, n: nat)
    requires active < n && index < n && index != active
    ensures Abs(CircularOffset(index, AfterClick(active, index, n), n))
         == Abs(CircularOffset(index, active, n)) - 1
  {
    var offset := CircularOffset(index, active, n);
    var next := AfterClick(active, index, n);
    var d := if offset > 0 then offset - 1 else offset + 1;
    OffsetUnique(index, next, n, d);
  }

  /** Clicking a neighbour of the active card makes it the active card. */
  lemma ClickNeighbour(active: nat, index: nat, n: nat)
    requires active < n && index < n
    requires Abs(CircularOffset(index, active, n)) == 1
    ensures AfterClick(active, index, n) == index
  {
    ClickApproaches(active, index, n);
    var next := AfterClick(active, index, n);
    assert CircularOffset(index, next, n) == 0;
  }

  /** The active index after `k` clicks on the same card. */
  function ClickRepeatedly(active: nat, index: nat, n: nat, k: nat): (r: nat)
    requires active < n && index < n
    ensures r < n
    decreases k
  {
    if k == 0 then active else ClickRepeatedly(AfterClick(active, index, n), index, n, k - 1)
  }

  /** As many clicks on a card as its distance from the centre make it the active card. */
  lemma {:induction false} ClicksReachCard(active: nat, index: nat, n: nat)
    requires active < n && index < n
    ensures ClickRepeatedly(active, index, n, Abs(CircularOffset(index, active, n))) == index
    decreases Abs(CircularOffset(index, active, n))
  {
    if index != active {
      ClickApproaches(active, index, n);
      ClicksReachCard(AfterClick(active, index, n), index, n);
    }
  }

  // ---------------------------------------------------------------------------
  // The component's state

  class Carousel {
    const total: nat
    var activeIndex: nat

    ghost predicate Valid()
      reads this
    {
      0 < total && activeIndex < total
    }

    /** `useState(0)` over the course's module list. */
    constructor ()
      ensures Valid() && total == |Modules| && activeIndex == 0
    {
      total := |Modules|;
      activeIndex := 0;
    }

    method Next()
      requires Valid()
      modifies this
      ensures Valid() && activeIndex == NextIndex(old(activeIndex), total)
    {
      activeIndex := (activeIndex + 1) % total;
    }

    method Prev()
      requires Valid()
      modifies this
      ensures Valid() && activeIndex == PrevIndex(old(activeIndex), total)
    {
      activeIndex := (activeIndex - 1 + total) % total;
    }

    /** The window `keydown` listener. */
    method KeyDown(key: string)
      requires Valid()
      modifies this
      ensures Valid()
      ensures key == "ArrowLeft" ==> activeIndex == PrevIndex(old(activeIndex), total)
      ensures key == "ArrowRight" ==> activeIndex == NextIndex(old(activeIndex), total)
      ensures key != "ArrowLeft" && key != "ArrowRight" ==> activeIndex == old(activeIndex)
    {
      if key == "ArrowLeft" {
        Prev();
      }
      if key == "ArrowRight" {
        Next();
      }
    }

    /** The render step's `let offset` for card `index`. */
    method Offset(index: nat) returns (offset: int)
      requires Valid() && index < total
      ensures offset == CircularOffset(index, activeIndex, total)
    {
      offset := index - activeIndex;
      if 2 * offset > total {
        offset := offset - total;
      }
      if 2 * offset < -(total as int) {
        offset := offset + total;
      }
    }

    /** The `onClick` handler of card `index`. */
    method Click(index: nat)
      requires Valid() && index < total
      modifies this
      ensures Valid() && activeIndex == AfterClick(old(activeIndex), index, total)
    {
      var offset := Offset(index);
      if offset != 0 {
        if offset > 0 {
          Next();
        } else {
          Prev();
        }
      }
    }
  }
}
