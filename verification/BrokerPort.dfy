/**
 The broker's filter-port statics and the functions that update them
 (crates/fsw-broker/src/main.rs), over the driver object they talk to.
 */
module BrokerPort {
  import opened Results
  import opened DriverTable
  import opened FilterMessage
  import opened BrokerPublish
  import FilterDriver

  class FilterPort {
    const driver: FilterDriver.Filter
    var port: Option<Connection>
    var published: Option<FilterMappings>
    var attempted: Option<FilterMappings>

    ghost function Contents(): Broker
      reads this
    {
      Broker(port, published, attempted)
    }

    constructor (filter: FilterDriver.Filter)
      ensures driver == filter && Contents() == Broker(None, None, None)
    {
      driver := filter;
      port, published, attempted := None, None, None;
    }

    /** disconnect_filter. */
    method DisconnectFilter()
      modifies this`port, this`published
      ensures Contents() == Disconnect(old(Contents()))
    {
      published := None;
      port := None;
    }

    /** ensure_filter_port. */
    method EnsureFilterPort(attempt: Attempt) returns (connected: bool)
      requires driver.Valid()
      modifies this`port, driver.connections
      ensures (driver.Contents(), Contents(), connected) == EnsurePort(old(driver.Contents()), old(Contents()), attempt)
    {
      if port.Some? {
        return true;
      }
      if !attempt.reachable {
        return false;
      }
      var status := driver.RegisterConnection(attempt.connection);
      if status != Success {
        return false;
      }
      if !attempt.pingAnswered {
        return false;
      }
      port := Some(attempt.connection);
      return true;
    }

    /** publish_filter_mappings. */
    method PublishFilterMappings(inputs: Inputs, attempt: Attempt, clock: nat) returns (outcome: Outcome)
      requires driver.Valid()
      modifies this, driver.connections, driver.mappings
      ensures (driver.Contents(), Contents(), outcome)
           == Publish(driver.upcase, old(driver.Contents()), old(Contents()), inputs, attempt, clock)
    {
      var volume := GuardedVolume(inputs);
      if volume.None? {
        DisconnectFilter();
        return Rejected;
      }
      var connected := EnsureFilterPort(attempt);
      if !connected && !inputs.force {
        return NotConnected;
      }
      var mappings := FilterMappings(volume.value, inputs.distributions);
      var same := attempted == Some(mappings);
      if !same {
        attempted := Some(mappings);
      }
      if !connected {
        return NotConnected;
      }
      if !inputs.force && same && published == Some(mappings) {
        return Unchanged;
      }
      outcome := SendMappings(mappings, clock, inputs.delivered);
    }

    /** The tail of publish_filter_mappings, from the message on. */
    method SendMappings(mappings: FilterMappings, clock: nat, delivered: bool) returns (outcome: Outcome)
      requires driver.Valid()
      modifies this`port, this`published, driver.mappings
      ensures (driver.Contents(), Contents(), outcome)
           == Transmit(driver.upcase, old(driver.Contents()), old(Contents()), mappings, clock, delivered)
    {
      var message := FilterMappingMessage(mappings, clock);
      if message.None? {
        DisconnectFilter();
        return MessageRejected;
      }
      if port.None? || !delivered {
        DisconnectFilter();
        return Undelivered;
      }
      var status := driver.HandleMessage(port.value, message.value);
      outcome := Answered(status);
      if status != Success {
        DisconnectFilter();
        return;
      }
      published := Some(mappings);
    }
  }
}
