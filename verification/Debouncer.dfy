/**
 * The debouncer: a table of statuses, one task object per status, and the scheduler's queue. Clock
 * readings and the random forced timeout are parameters. The scheduler is free to run any task that
 * was not cleared, once its wakeup time has come; a firing and its status update are one step.
 */
module Debouncer {
  import opened Wrappers
  import opened DebouncerRuns

  class Task<K, A> {
    const throttler: bool
    const key: K
    const args: Option<A>
    const wakeup: int
    var cleared: bool

    constructor (key: K, args: Option<A>, wakeup: int)
      ensures this.throttler == args.None? && this.key == key && this.args == args && this.wakeup == wakeup
      ensures !cleared
    {
      this.throttler, this.key, this.args, this.wakeup, this.cleared := args.None?, key, args, wakeup, false;
    }

    /** Whether the task was still to be run. */
    method Clear() returns (was: bool)
      modifies this`cleared
      ensures cleared && was == !old(cleared)
    {
      was := !cleared;
      cleared := true;
    }
  }

  /** `maxWakeup` is None for the flag value that marks a throttler. */
  datatype Status<!K, !A> = Status(task: Task?<K, A>, maxWakeup: Option<int>)

  class Debouncer<K(==, !new), A> {
    const config: Config
    var statuses: map<K, Status<K, A>>
    var queue: set<Task<K, A>>
    ghost var history: seq<Step<K, A>>

    /** The status holds a task for its key, and is flagged exactly when that task is a throttler. */
    ghost predicate Holds(k: K, s: Status<K, A>) {
      && s.task != null
      && s.task.key == k
      && s.task.throttler == s.task.args.None? == s.maxWakeup.None?
    }

    /** A task that was not cleared is the one its key's status holds; `k` is a key being served. */
    ghost predicate LinkedBut(k: K)
      reads this`statuses, this`queue, queue
    {
      && (forall j | j in statuses :: Holds(j, statuses[j]) && statuses[j].task in queue)
      && (forall j | j in statuses && j != k :: !statuses[j].task.cleared)
      && (forall t | t in queue :: !t.cleared ==> t.key in statuses && statuses[t.key].task == t)
    }

    ghost predicate Linked()
      reads this`statuses, this`queue, queue
    {
      && (forall j | j in statuses :: Holds(j, statuses[j]) && statuses[j].task in queue && !statuses[j].task.cleared)
      && (forall t | t in queue :: !t.cleared ==> t.key in statuses && statuses[t.key].task == t)
    }

    ghost predicate Shaped()
      reads this`statuses
    {
      forall j | j in statuses :: Holds(j, statuses[j])
    }

    static ghost function AsWaiting(s: Status<K, A>): Waiting<A>
      requires s.task != null && s.task.throttler == s.task.args.None? == s.maxWakeup.None?
    {
      if s.task.throttler then Throttler(s.task.wakeup)
      else Function(s.task.wakeup, s.maxWakeup.value, s.task.args.value)
    }

    /** What waits for each key. */
    ghost function View(): Waits<K, A>
      requires Shaped()
      reads this`statuses
    {
      map k | k in statuses :: AsWaiting(statuses[k])
    }

    /** The tasks that may still run are those of the statuses, and they are what the history leaves. */
    ghost predicate Valid()
      reads this, queue
    {
      && Accepted(config)
      && Shaped() && Linked()
      && Legal(config, history)
      && View() == State(config, history)
    }

    constructor (config: Config)
      requires Accepted(config)
      ensures Valid() && this.config == config && history == [] && queue == {}
    {
      this.config := config;
      statuses, queue, history := map[], {}, [];
    }

    /** Clear what waits for `key`, and queue a new task in its place. */
    method Replace(key: K, args: Option<A>, wakeup: int, maxWakeup: Option<int>)
      requires LinkedBut(key) && args.None? == maxWakeup.None?
      modifies this`statuses, this`queue, queue`cleared
      ensures Shaped() && Linked()
      ensures View() == old(View())[key :=
                if args.None? then Throttler(wakeup) else Function(wakeup, maxWakeup.value, args.value)]
      ensures old(queue) < queue && fresh(queue - old(queue))
      ensures forall t | t in old(queue) :: old(t.cleared) ==> t.cleared
    {
      if key in statuses {
        var _ := statuses[key].task.Clear();
      }
      var task := new Task(key, args, wakeup);
      statuses := statuses[key := Status(task, maxWakeup)];
      queue := queue + {task};
    }

    method Release(key: K)
      requires LinkedBut(key)
      requires key in statuses ==> statuses[key].task.cleared
      modifies this`statuses
      ensures Shaped() && Linked() && View() == old(View()) - {key}
    {
      statuses := statuses - {key};
    }

    method Throttle(key: K, now: int)
      requires LinkedBut(key)
      requires key in statuses ==> statuses[key].task.cleared
      modifies this`statuses, this`queue, queue`cleared
      ensures Shaped() && Linked()
      ensures View() == if config.throttle <= config.debounce then old(View()) - {key}
                        else if key !in old(View()) then old(View())
                        else old(View())[key := Throttler(now + config.throttle)]
      ensures old(queue) <= queue && fresh(queue - old(queue))
      ensures forall t | t in old(queue) :: old(t.cleared) ==> t.cleared
    {
      if config.throttle <= config.debounce {
        Release(key);
      } else if key in statuses {
        Replace(key, None, now + config.throttle, None);
      }
    }

    /** Run the cleared task of `key`: release the key, or run the function and throttle. */
    method Serve(task: Task<K, A>, now: int)
      requires LinkedBut(task.key) && task in queue && task.cleared
      requires task.key in statuses && statuses[task.key].task == task
      modifies this`statuses, this`queue, queue`cleared
      ensures Shaped() && Linked() && View() == Apply(config, old(View()), StepOf(task, now))
      ensures old(queue) <= queue && fresh(queue - old(queue)) && task.cleared
    {
      if task.throttler {
        Release(task.key);
      } else {
        Throttle(task.key, now);
      }
    }

    static ghost function StepOf(task: Task<K, A>, now: int): Step<K, A> {
      if task.args.None? then Step.Release(now, task.key) else Run(now, task.key, task.args.value)
    }

    lemma Due(task: Task<K, A>, now: int)
      requires Linked() && task in queue && !task.cleared && task.wakeup <= now
      ensures StepOf(task, now).now == now && Enabled(config, View(), StepOf(task, now))
    {
    }

    lemma LinkedAll(key: K)
      requires Linked()
      ensures Shaped() && LinkedBut(key)
    {
    }

    /** The scheduler claims a task by clearing it. */
    method Take(task: Task<K, A>) returns (mine: bool)
      requires Linked() && task in queue
      modifies task`cleared
      ensures task.cleared && mine == !old(task.cleared)
      ensures if mine then LinkedBut(task.key) && task.key in statuses && statuses[task.key].task == task else Linked()
    {
      mine := task.Clear();
    }

    /**
     * The scheduler reaches a task. One that was cleared meanwhile does nothing; otherwise the key is
     * released, or the function runs with the returned arguments and its key is throttled.
     */
    method Fire(task: Task<K, A>, now: int) returns (run: Option<A>)
      requires Valid() && task in queue && task.wakeup <= now
      requires history != [] ==> history[|history| - 1].now <= now
      modifies this`statuses, this`queue, this`history, queue`cleared
      ensures Valid() && task.cleared
      ensures run == if old(task.cleared) then None else task.args
      ensures history == old(history) + if old(task.cleared) then [] else [StepOf(task, now)]
      ensures old(queue) <= queue && fresh(queue - old(queue))
    {
      hide State, Legal, Accepted, Linked, View, Apply, Enabled, StepOf;
      run := None;
      LinkedAll(task.key);
      if !task.cleared {
        Due(task, now);
        Extend(config, history, StepOf(task, now));
      }
      var mine := Take(task);
      if mine {
        Serve(task, now);
        run := task.args;
        history := history + [StepOf(task, now)];
      }
    }

    /** The times `delayed_debounce` computes; `keep` when the task already waiting is good enough. */
    method Plan(delay: nat, key: K, args: A, now: int, force: nat) returns (keep: bool, next: int, maxWakeup: int)
      requires Shaped()
      ensures var r := OnCall(config, Lookup(View(), key), Call(now, key, delay, force, args));
              if keep then key in View() && r == View()[key] else r == Function(next, maxWakeup, args)
    {
      if key !in statuses || statuses[key].maxWakeup.None? {
        maxWakeup := now + force + delay;
        next := now + config.debounce + delay;
      } else {
        maxWakeup := statuses[key].maxWakeup.value;
        next := now + config.busy + delay;
      }
      if next > maxWakeup {
        next := maxWakeup;
      }
      keep := false;
      if key in statuses {
        var task := statuses[key].task;
        if task.throttler {
          if next < task.wakeup {
            next := task.wakeup;
          }
        } else if next <= task.wakeup {
          keep := true;
        }
      }
    }

    /** `debounce` is the case of no delay. */
    method DelayedDebounce(delay: nat, key: K, args: A, now: int, force: nat)
      requires Valid() && config.minForce <= force <= config.maxForce
      requires history != [] ==> history[|history| - 1].now <= now
      modifies this`statuses, this`queue, this`history, queue`cleared
      ensures Valid()
      ensures history == old(history) + [Call(now, key, delay, force, args)]
      ensures old(queue) <= queue && fresh(queue - old(queue))
    {
      hide State, Legal, Accepted, Linked, View, OnCall, Lookup;
      ghost var s, m := Call(now, key, delay, force, args), View();
      Extend(config, history, s);
      LinkedAll(key);
      var keep, next, maxWakeup := Plan(delay, key, args, now, force);
      if keep {
        assert m == m[key := m[key]];
      } else {
        Replace(key, Some(args), next, Some(maxWakeup));
      }
      history := history + [s];
    }

    /** In every state the debouncer can reach, executions for one key have been kept apart. */
    lemma Apart(i: nat, j: nat)
      requires Valid() && i < j < |history|
      requires history[i].Run? && history[j].Run? && history[i].key == history[j].key
      ensures history[j].now - history[i].now >= config.throttle
    {
      ThrottleSafety(config, history, i, j);
    }
  }

  lemma Extend<K, A>(c: Config, h: seq<Step<K, A>>, s: Step<K, A>)
    requires Legal(c, h) && Enabled(c, State(c, h), s) && (h != [] ==> h[|h| - 1].now <= s.now)
    ensures Legal(c, h + [s]) && State(c, h + [s]) == Apply(c, State(c, h), s)
  {
    assert (h + [s])[..|h|] == h;
  }
}
