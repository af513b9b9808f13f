/**
 * The `locale` filter hook as far as the switcher uses it: the list of its callbacks, in the order they were added.
 * Only the switcher's own callbacks are modelled.
 */
module Hooks {
  import opened Storage

  /** add_filter( 'locale', $callback ): a callback is keyed by its identity, so adding one already present changes nothing. */
  function AddFilter(hooks: seq<LocaleStorage>, callback: LocaleStorage): (r: seq<LocaleStorage>)
    ensures callback in r
    ensures forall h :: h in r <==> h in hooks || h == callback
    ensures callback in hooks ==> r == hooks
    ensures callback !in hooks ==> |r| == |hooks| + 1 && r[|r| - 1] == callback
  {
    if callback in hooks then hooks else hooks + [callback]
  }

  /** remove_filter( 'locale', $callback ): the callback is no longer registered; every other one stays. */
  function RemoveFilter(hooks: seq<LocaleStorage>, callback: LocaleStorage): (r: seq<LocaleStorage>)
    ensures forall h :: h in r <==> h in hooks && h != callback
    ensures |r| <= |hooks|
    ensures callback !in hooks ==> r == hooks
  {
    if hooks == [] then []
    else if hooks[0] == callback then RemoveFilter(hooks[1..], callback)
    else [hooks[0]] + RemoveFilter(hooks[1..], callback)
  }

  /**
   * apply_filters( 'locale', $value ): each callback receives the previous one's output.
   * Because every callback ignores its input, the last one registered decides the answer.
   */
  function ApplyFilters(value: string, hooks: seq<LocaleStorage>): (r: string)
    ensures r == if hooks == [] then value else hooks[|hooks| - 1].Get()
    decreases hooks
  {
    if hooks == [] then value else ApplyFilters(hooks[0].Filter(value), hooks[1..])
  }
}
