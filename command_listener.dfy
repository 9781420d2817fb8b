/**
 * `CommandListener.onCommand`, the handler the plugin registers for the host's
 * "player is about to run a command" notification.
 *
 * The plugin's registry is kept abstract: the set of players it reports as being
 * in a command process, and the log of prompt sessions registered with it. How
 * sessions later leave the registry is not part of this model. Messages sent to
 * players are recorded, in order, in an outbox; the colour translation applied
 * to them is not modelled.
 */
module CommandListener {
  import Placeholders

  /** A player's identity (the host's UUID). */
  type PlayerId = string

  /** The session handed to the registry: the player, their placeholders in order, the untouched command line. */
  datatype Session = Session(player: PlayerId, placeholders: seq<string>, command: string)

  /** One chat message sent to a player. */
  datatype Outgoing = Outgoing(to: PlayerId, text: string)

  /** The notice a player mid-prompt receives after the configured prefix. */
  const BusyNotice: string := "&6You are still trying to complete a command. Type \"cancel\" to cancel"

  /** The plugin state `onCommand` reads and changes. */
  class Plugin {
    /** The "Prompt-Prefix" configuration value. */
    const promptPrefix: string
    /** Players the plugin reports as being in a command process. */
    var inProcess: set<PlayerId>
    /** Every session registered, oldest first. */
    var sessions: seq<Session>
    /** Every message sent to a player, oldest first. */
    var outbox: seq<Outgoing>

    constructor (prefix: string)
      ensures promptPrefix == prefix && inProcess == {} && sessions == [] && outbox == []
    {
      promptPrefix := prefix;
      inProcess := {};
      sessions := [];
      outbox := [];
    }

    /** Whether the registry reports the player as mid-prompt. */
    predicate InCommandProcess(p: PlayerId): (busy: bool)
      reads this
      ensures busy <==> p in inProcess
    {
      p in inProcess
    }

    /** Sends one chat message to a player. */
    method SendMessage(to: PlayerId, text: string)
      modifies this`outbox
      ensures outbox == old(outbox) + [Outgoing(to, text)]
    {
      outbox := outbox + [Outgoing(to, text)];
    }

    /** Hands a new session to the registry; its player is then in a command process. */
    method RegisterPrompt(s: Session)
      modifies this`sessions, this`inProcess
      ensures sessions == old(sessions) + [s]
      ensures inProcess == old(inProcess) + {s.player}
    {
      sessions := sessions + [s];
      inProcess := inProcess + {s.player};
    }
  }

  /** A command line a player is about to run, and whether its normal processing is suppressed. */
  class CommandEvent {
    const player: PlayerId
    const message: string
    var cancelled: bool

    constructor (player: PlayerId, message: string)
      ensures this.player == player && this.message == message && !cancelled
    {
      this.player := player;
      this.message := message;
      cancelled := false;
    }

    method SetCancelled(c: bool)
      modifies this`cancelled
      ensures cancelled == c
    {
      cancelled := c;
    }
  }

  class Listener {
    const plugin: Plugin

    constructor (plugin: Plugin)
      ensures this.plugin == plugin
    {
      this.plugin := plugin;
    }

    /**
     * A player mid-prompt gets the busy notice and the command is suppressed; otherwise
     * a command line with placeholders is suppressed and becomes a new session; any
     * other command line passes through untouched.
     */
    method OnCommand(event: CommandEvent)
      modifies plugin`inProcess, plugin`sessions, plugin`outbox, event`cancelled
      ensures old(plugin.InCommandProcess(event.player)) ==>
        && event.cancelled
        && plugin.outbox == old(plugin.outbox) + [Outgoing(event.player, plugin.promptPrefix + BusyNotice)]
        && plugin.sessions == old(plugin.sessions)
        && plugin.inProcess == old(plugin.inProcess)
      ensures !old(plugin.InCommandProcess(event.player)) && |Placeholders.Extract(event.message)| > 0 ==>
        && event.cancelled
        && plugin.sessions == old(plugin.sessions)
             + [Session(event.player, Placeholders.Extract(event.message), event.message)]
        && plugin.inProcess == old(plugin.inProcess) + {event.player}
        && plugin.outbox == old(plugin.outbox)
      ensures !old(plugin.InCommandProcess(event.player)) && Placeholders.Extract(event.message) == [] ==>
        && event.cancelled == old(event.cancelled)
        && plugin.sessions == old(plugin.sessions)
        && plugin.inProcess == old(plugin.inProcess)
        && plugin.outbox == old(plugin.outbox)
    {
      if plugin.InCommandProcess(event.player) {
        var prefix := plugin.promptPrefix;
        plugin.SendMessage(event.player, prefix + BusyNotice);
        event.SetCancelled(true);
      } else {
        var prompts := Placeholders.Extract(event.message);
        if |prompts| > 0 {
          event.SetCancelled(true);
          plugin.RegisterPrompt(Session(event.player, prompts, event.message));
        }
      }
    }
  }
}
